/** The flat `key=value` configuration dialect, in the two forms the
    repository reads it:

    - `sdy.py`'s `load_kv` strips each line first, skips blank and `#` lines,
      and keeps a line without `=` as a flag whose value is Python's `True`;
    - `session_select.py` and `session_launch.py` test `"=" in line` and
      `line.startswith("#")` on the raw line and skip everything else.

    Both fold their lines into a dictionary in file order, so a later line
    overwrites an earlier one with the same key. */
module KvConfig {
  import opened Wrappers
  import opened PyText

  /** A configuration value: text, or the `True` of a bare flag line. */
  datatype Value = Str(text: string) | Flag

  /** `entry` assigns a value to key `k`. */
  predicate Defines<V>(entry: Option<(string, V)>, k: string) {
    entry.Some? && entry.value.0 == k
  }

  /** A dictionary filled in list order from the entries lines contribute;
      `None` is a line that contributes nothing. */
  function Collect<V>(entries: seq<Option<(string, V)>>): (m: map<string, V>)
    ensures forall k :: k in m <==> exists i :: 0 <= i < |entries| && Defines(entries[i], k)
    decreases |entries|
  {
    if |entries| == 0 then map[]
    else
      var init := entries[..|entries| - 1];
      var m := Collect(init);
      assert forall i :: 0 <= i < |init| ==> init[i] == entries[i];
      match entries[|entries| - 1]
      case None => m
      case Some((k, v)) => m[k := v]
  }

  /** Reading two files' worth of lines one after the other is the first
      dictionary overridden by the second. */
  lemma {:induction false} CollectAppend<V>(e1: seq<Option<(string, V)>>, e2: seq<Option<(string, V)>>)
    ensures Collect(e1 + e2) == Collect(e1) + Collect(e2)
    decreases |e2|
  {
    if |e2| == 0 {
      assert e1 + e2 == e1;
    } else {
      var init := e2[..|e2| - 1];
      assert (e1 + e2)[..|e1 + e2| - 1] == e1 + init;
      CollectAppend(e1, init);
    }
  }

  /** Every key is bound to the value of the LAST entry that defines it. */
  lemma {:induction false} CollectLastWins<V>(entries: seq<Option<(string, V)>>, i: nat, k: string, v: V)
    requires i < |entries| && entries[i] == Some((k, v))
    requires forall j :: i < j < |entries| ==> !Defines(entries[j], k)
    ensures k in Collect(entries) && Collect(entries)[k] == v
    decreases |entries|
  {
    if i < |entries| - 1 {
      var init := entries[..|entries| - 1];
      CollectLastWins(init, i, k, v);
    }
  }

  /** An entry that contributes nothing can be dropped from anywhere. */
  lemma InertEntry<V>(e1: seq<Option<(string, V)>>, e2: seq<Option<(string, V)>>)
    ensures Collect(e1 + [None] + e2) == Collect(e1 + e2)
  {
    CollectAppend(e1 + [None], e2);
    CollectAppend(e1, [None]);
    CollectAppend(e1, e2);
  }

  /** Python's `v.strip().strip('"').strip("'")`: surrounding whitespace,
      then EVERY surrounding double quote, then every surrounding single
      quote. */
  function Unquote(v: string): (r: string)
    ensures |r| <= |v|
    ensures |r| > 0 ==> r[0] != '\'' && r[|r| - 1] != '\''
  {
    Trim(Trim(Trim(v, Space), Only('"')), Only('\''))
  }

  /** A value with nothing to strip at either end. */
  predicate CleanValue(v: string) {
    |v| > 0 ==> NotStripped(v[0]) && NotStripped(v[|v| - 1])
  }

  /** A character none of `Unquote`'s three strips removes. */
  predicate NotStripped(c: char) {
    !IsSpace(c) && c != '"' && c != '\''
  }

  /** Unquoting leaves a clean value alone. */
  lemma UnquoteClean(v: string)
    requires CleanValue(v)
    ensures Unquote(v) == v
  {
    assert Trim(v, Only('"')) == v by { TrimOfTrimmed(v, Only('"')); }
    assert Trim(v, Only('\'')) == v by { TrimOfTrimmed(v, Only('\'')); }
    assert Trim(v, Space) == v by { TrimOfTrimmed(v, Space); }
  }

  lemma UnquoteDouble(v: string)
    requires CleanValue(v)
    ensures Unquote("\"" + v + "\"") == v
  {
    assert Trim(v, Only('\'')) == v by { TrimOfTrimmed(v, Only('\'')); }
    var dq := "\"" + v + "\"";
    assert Trim(dq, Space) == dq by { TrimOfTrimmed(dq, Space); }
    assert Trim(dq, Only('"')) == v by { TrimPeel('"', v, Only('"')); TrimOfTrimmed(v, Only('"')); }
  }

  lemma UnquoteSingle(v: string)
    requires CleanValue(v)
    ensures Unquote("'" + v + "'") == v
  {
    var sq := "'" + v + "'";
    assert Trim(sq, Space) == sq by { TrimOfTrimmed(sq, Space); }
    assert Trim(sq, Only('"')) == sq by { TrimOfTrimmed(sq, Only('"')); }
    assert Trim(sq, Only('\'')) == v by { TrimPeel('\'', v, Only('\'')); TrimOfTrimmed(v, Only('\'')); }
  }

  /** Unquoting undoes a layer of either kind of quotes around a clean value. */
  lemma UnquoteQuoted(v: string)
    requires CleanValue(v)
    ensures Unquote(v) == v
    ensures Unquote("\"" + v + "\"") == v
    ensures Unquote("'" + v + "'") == v
  {
    UnquoteClean(v);
    UnquoteDouble(v);
    UnquoteSingle(v);
  }

  /** `Unquote` is its three strips in order. */
  lemma UnquoteSteps(s: string, a: string, b: string, c: string)
    requires Trim(s, Space) == a && Trim(a, Only('"')) == b && Trim(b, Only('\'')) == c
    ensures Unquote(s) == c
  {
  }

  /** Unlike a single layer of matching quotes, every surrounding `"` goes. */
  lemma UnquoteStripsAllDoubleQuotes(v: string)
    requires CleanValue(v)
    ensures Unquote("\"\"" + v + "\"\"") == v
  {
    var inner := "\"" + v + "\"";
    var s := "\"" + inner + "\"";
    assert "\"\"" + v + "\"\"" == s;
    assert Trim(s, Space) == s by { TrimOfTrimmed(s, Space); }
    StripTwoLayers(inner, v);
    assert Trim(v, Only('\'')) == v by { TrimOfTrimmed(v, Only('\'')); }
    UnquoteSteps(s, s, v, v);
  }

  /** The `"` strip peels both layers of `""v""`. */
  lemma StripTwoLayers(inner: string, v: string)
    requires CleanValue(v)
    requires inner == ['"'] + v + ['"']
    ensures Trim(['"'] + inner + ['"'], Only('"')) == v
  {
    TrimPeel('"', inner, Only('"'));
    TrimPeel('"', v, Only('"'));
    TrimOfTrimmed(v, Only('"'));
  }

  /** Double quotes inside single quotes survive: the `"` strip runs first. */
  lemma UnquoteKeepsDoubleInsideSingle(v: string)
    requires CleanValue(v)
    ensures Unquote("'" + ("\"" + v + "\"") + "'") == "\"" + v + "\""
  {
    var inner := "\"" + v + "\"";
    var t := "'" + inner + "'";
    assert t[0] == '\'' && t[|t| - 1] == '\'';
    assert Trim(t, Space) == t by { TrimOfTrimmed(t, Space); }
    assert Trim(t, Only('"')) == t by { TrimOfTrimmed(t, Only('"')); }
    assert Trim(t, Only('\'')) == inner by {
      TrimPeel('\'', inner, Only('\''));
      TrimOfTrimmed(inner, Only('\''));
    }
    UnquoteSteps(t, t, t, inner);
  }

  /** When the first occurrence of `sep` in `s` is at `n`, `split(sep, 1)`
      cuts `s` there. */
  lemma SplitAtFirst(s: string, sep: string, n: nat)
    requires |sep| > 0 && IsAt(s, sep, n)
    requires forall j: nat :: j < n ==> !IsAt(s, sep, j)
    ensures Contains(s, sep)
    ensures Before(s, sep) == s[..n]
    ensures After(s, sep) == s[n + |sep|..]
  {
    ContainsAt(s, sep, n);
    assert Find(s, sep) == Some(n);
  }

  /** `k + "=" + rest` splits at the `=` after `k` when `k` has none. */
  lemma SplitAtEquals(k: string, rest: string)
    requires '=' !in k
    ensures Contains(k + "=" + rest, "=")
    ensures Before(k + "=" + rest, "=") == k
    ensures After(k + "=" + rest, "=") == rest
  {
    var s := k + "=" + rest;
    forall j: nat | j < |k| ensures !IsAt(s, "=", j) {
      assert s[j] == k[j];
      assert s[j..j + 1] == [s[j]];
    }
    assert s[|k|..|k| + 1] == "=";
    SplitAtFirst(s, "=", |k|);
    assert s[..|k|] == k;
    assert s[|k| + 1..] == rest;
  }

  // ---------------------------------------------------------------------
  // `load_kv` in sdy.py

  /** Python's `s.startswith("#")`. */
  predicate StartsWithHash(s: string) {
    |s| > 0 && s[0] == '#'
  }

  /** What one line contributes to `load_kv`'s dictionary. */
  function FlagLineEntry(raw: string): Option<(string, Value)> {
    var line := Strip(raw);
    if line == "" || StartsWithHash(line) then None
    else if Contains(line, "=") then Some((Strip(Before(line, "=")), Str(Unquote(After(line, "=")))))
    else Some((line, Flag))
  }

  function FlagEntries(lines: seq<string>): (es: seq<Option<(string, Value)>>)
    ensures |es| == |lines|
    ensures forall i :: 0 <= i < |lines| ==> es[i] == FlagLineEntry(lines[i])
  {
    seq(|lines|, i requires 0 <= i < |lines| => FlagLineEntry(lines[i]))
  }

  function LoadKvLines(lines: seq<string>): map<string, Value> {
    Collect(FlagEntries(lines))
  }

  /** `load_kv(path)`: `None` is a file that does not exist. */
  function LoadKv(file: Option<string>): (m: map<string, Value>)
    ensures file.None? ==> m == map[]
    ensures file.Some? ==> m == LoadKvLines(FileLines(file.value))
  {
    match file
    case None => map[]
    case Some(text) => LoadKvLines(FileLines(text))
  }

  /** A key with nothing to strip, no `=`, and not starting a comment. */
  predicate CleanKey(k: string) {
    && |k| > 0
    && !IsSpace(k[0]) && !IsSpace(k[|k| - 1])
    && k[0] != '#'
    && '=' !in k
  }

  /** A clean key has no `=` in it, as a substring either. */
  lemma CleanKeyNoEquals(k: string)
    requires '=' !in k
    ensures !Contains(k, "=")
  {
    forall j: nat | j + 1 <= |k| ensures !IsAt(k, "=", j) {
      assert k[j..j + 1] == [k[j]];
    }
  }

  /** How `load_kv` reads a stripped, non-comment line holding `=`. */
  lemma FlagLineOfPair(line: string)
    requires Strip(line) == line && line != "" && !StartsWithHash(line) && Contains(line, "=")
    ensures FlagLineEntry(line) == Some((Strip(Before(line, "=")), Str(Unquote(After(line, "=")))))
  {
  }

  /** `load_kv` reads back what `key=value` writes. */
  lemma FlagLineRoundTrip(k: string, v: string)
    requires CleanKey(k) && CleanValue(v)
    ensures FlagLineEntry(k + "=" + v) == Some((k, Str(v)))
  {
    var line := k + "=" + v;
    assert Strip(line) == line by {
      assert line[0] == k[0];
      assert |v| > 0 ==> line[|line| - 1] == v[|v| - 1];
      TrimOfTrimmed(line, Space);
    }
    assert Before(line, "=") == k && After(line, "=") == v && Contains(line, "=") by {
      SplitAtEquals(k, v);
    }
    assert Strip(k) == k by { TrimOfTrimmed(k, Space); }
    assert Unquote(v) == v by { UnquoteQuoted(v); }
    assert line != "" && !StartsWithHash(line) by { assert line[0] == k[0]; }
    FlagLineOfPair(line);
  }

  /** `load_kv` reads a bare key as a flag. */
  lemma FlagLineBare(k: string)
    requires CleanKey(k)
    ensures FlagLineEntry(k) == Some((k, Flag))
  {
    assert Strip(k) == k by { TrimOfTrimmed(k, Space); }
    assert !Contains(k, "=") by { CleanKeyNoEquals(k); }
  }

  lemma FlagEntriesAppend(a: seq<string>, b: seq<string>)
    ensures FlagEntries(a + b) == FlagEntries(a) + FlagEntries(b)
  {
  }

  /** A blank or comment line leaves `load_kv`'s dictionary unchanged
      wherever it appears. */
  lemma CommentLineInert(before: seq<string>, c: string, after: seq<string>)
    requires Strip(c) == "" || StartsWithHash(Strip(c))
    ensures LoadKvLines(before + [c] + after) == LoadKvLines(before + after)
  {
    FlagEntriesAppend(before + [c], after);
    FlagEntriesAppend(before, [c]);
    FlagEntriesAppend(before, after);
    assert FlagEntries([c]) == [None];
    InertEntry(FlagEntries(before), FlagEntries(after));
  }

  /** A later line for the same key overwrites an earlier one. */
  lemma LaterLineWins(lines: seq<string>, k: string, v1: string, v2: string)
    requires CleanKey(k) && CleanValue(v1) && CleanValue(v2)
    ensures k in LoadKvLines([k + "=" + v1] + lines + [k + "=" + v2])
    ensures LoadKvLines([k + "=" + v1] + lines + [k + "=" + v2])[k] == Str(v2)
  {
    var all := [k + "=" + v1] + lines + [k + "=" + v2];
    FlagLineRoundTrip(k, v2);
    CollectLastWins(FlagEntries(all), |all| - 1, k, Str(v2));
  }

  // ---------------------------------------------------------------------
  // The `=`-line reader of session_select.py and session_launch.py

  /** What one line contributes: only a raw line holding `=` and not
      beginning with `#` counts. */
  function EqLineEntry(raw: string): Option<(string, string)> {
    if Contains(raw, "=") && !StartsWithHash(raw) then Some((Strip(Before(raw, "=")), Unquote(After(raw, "="))))
    else None
  }

  function EqEntries(lines: seq<string>): (es: seq<Option<(string, string)>>)
    ensures |es| == |lines|
    ensures forall i :: 0 <= i < |lines| ==> es[i] == EqLineEntry(lines[i])
  {
    seq(|lines|, i requires 0 <= i < |lines| => EqLineEntry(lines[i]))
  }

  function LoadSsotLines(lines: seq<string>): map<string, string> {
    Collect(EqEntries(lines))
  }

  /** The dictionary the session scripts build from an existing file. */
  function LoadSsot(text: string): map<string, string> {
    LoadSsotLines(FileLines(text))
  }

  /** The session scripts read back what `key=value` writes. */
  lemma EqLineRoundTrip(k: string, v: string)
    requires CleanKey(k) && CleanValue(v)
    ensures EqLineEntry(k + "=" + v + "\n") == Some((k, v))
  {
    var line := k + "=" + v + "\n";
    assert Contains(line, "=") && Before(line, "=") == k && After(line, "=") == v + "\n" by {
      assert line == k + "=" + (v + "\n");
      SplitAtEquals(k, v + "\n");
    }
    assert Strip(k) == k by { TrimOfTrimmed(k, Space); }
    UnquoteNewline(v);
    assert !StartsWithHash(line) by { assert line[0] == k[0]; }
  }

  /** The newline a writer appends is stripped with the whitespace. */
  lemma UnquoteNewline(v: string)
    requires CleanValue(v)
    ensures Unquote(v + "\n") == v
  {
    assert Trim(v + "\n", Space) == v by {
      TrimRightSnoc(v, '\n', Space);
      if |v| > 0 {
        assert TrimLeft(v + "\n", Space) == v + "\n";
      } else {
        TrimLeftCons('\n', "", Space);
        assert v + "\n" == ['\n'] + "";
      }
      TrimOfTrimmed(v, Space);
    }
    UnquoteClean(v);
  }

  /** A right strip keeps a first character it does not strip. */
  lemma TrimRightKeepsHead(s: string, cls: CharClass)
    requires |s| > 0 && !In(s[0], cls)
    ensures |TrimRight(s, cls)| > 0 && TrimRight(s, cls)[0] == s[0]
  {
  }

  /** An indented comment is a comment to `load_kv`, which strips first. */
  lemma IndentedCommentSkippedByLoadKv(k: string)
    ensures FlagLineEntry("  #" + k) == None
  {
    var line := "  #" + k;
    var rest := "#" + k;
    assert TrimLeft(line, Space) == TrimLeft(rest, Space) by {
      assert line == [' '] + ([' '] + rest);
      TrimLeftCons(' ', [' '] + rest, Space);
      TrimLeftCons(' ', rest, Space);
    }
    assert StartsWithHash(Strip(line)) by {
      assert TrimLeft(rest, Space) == rest;
      TrimRightKeepsHead(rest, Space);
    }
  }

  /** The session scripts test `startswith("#")` on the raw line, so an
      indented comment holding `=` is a pair whose key begins with `#`. */
  lemma IndentedCommentReadBySessionScripts(k: string, v: string)
    requires '=' !in k
    ensures EqLineEntry("  #" + k + "=" + v) == Some((Strip("  #" + k), Unquote(v)))
  {
    var line := "  #" + k + "=" + v;
    assert Contains(line, "=") && Before(line, "=") == "  #" + k && After(line, "=") == v by {
      assert line == ("  #" + k) + "=" + v;
      SplitAtEquals("  #" + k, v);
    }
    assert !StartsWithHash(line);
    EqLineOfPair(line);
  }

  lemma EqLineOfPair(line: string)
    requires Contains(line, "=") && !StartsWithHash(line)
    ensures EqLineEntry(line) == Some((Strip(Before(line, "=")), Unquote(After(line, "="))))
  {
  }

  /** A bare flag line is a flag to `load_kv` and skipped by the session scripts. */
  lemma FlagLineSkippedBySessionScripts(k: string)
    requires CleanKey(k)
    ensures FlagLineEntry(k) == Some((k, Flag))
    ensures EqLineEntry(k) == None
  {
    FlagLineBare(k);
    CleanKeyNoEquals(k);
  }
}
