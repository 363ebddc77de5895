/** The game list of `control_center.py`: games seen in the journal, and
    the per-game profiles already in `games.d`, become combo-box labels
    `"<name> (<id>)"` or `"<name>"`; a label is read back as the profile
    name it stands for when a profile is opened or saved. */
module GameLabels {
  import opened Wrappers
  import opened PyText
  import opened Sorting
  import Discovery

  // ---------------------------------------------------------------------
  // Labels

  /** The label of a detected game: the name alone unless the id is a
      number that differs from it. */
  function Label(name: string, id: string): string {
    if IsDigits(id) && id != name then name + " (" + id + ")" else name
  }

  /** `raw.split(" (")[0].strip()`: the profile name a label stands for. */
  function NameOf(raw: string): string {
    Strip(Before(raw, " ("))
  }

  /** The first ` (` of `x + " (" + y` is the one after `x` when `x` has
      none of its own. */
  lemma BeforeSeparator(x: string, y: string)
    requires !Contains(x, " (")
    ensures Before(x + " (" + y, " (") == x
  {
    var s := x + " (" + y;
    assert IsAt(s, " (", |x|) by {
      assert s[|x|..|x| + 2] == " (";
    }
    ContainsAt(s, " (", |x|);
    assert forall j :: 0 <= j < |x| ==> !IsAt(s, " (", j) by {
      forall j | 0 <= j < |x| ensures !IsAt(s, " (", j) {
        if j + 2 <= |x| {
          assert s[j..j + 2] == x[j..j + 2];
          assert !IsAt(x, " (", j);
        } else {
          assert s[j + 1] == ' ';
          assert s[j..j + 2][1] == ' ';
        }
      }
    }
    assert s[..|x|] == x;
  }

  /** Reading a label back gives the name it was made from, provided the
      name has no surrounding whitespace and no ` (` of its own. */
  lemma NameOfLabel(name: string, id: string)
    requires !Contains(name, " (") && Strip(name) == name
    ensures NameOf(Label(name, id)) == name
  {
    if IsDigits(id) && id != name {
      BeforeSeparator(name, id + ")");
      assert name + " (" + id + ")" == name + " (" + (id + ")");
    }
  }

  /** A name with a ` (` in it is cut there: such a game's label does not
      lead back to its profile. */
  lemma NameOfCutsAtSeparator(x: string, y: string)
    requires !Contains(x, " (")
    ensures NameOf(x + " (" + y) == Strip(x)
  {
    BeforeSeparator(x, y);
  }

  // ---------------------------------------------------------------------
  // Opening and saving a profile

  /** `re.search(r"\((\d+)\)", raw)` from index `i` on: the digits of the
      leftmost parenthesised number. */
  function FindIdFrom(raw: string, i: nat): (r: Option<string>)
    requires i <= |raw|
    ensures r.Some? ==> IsDigits(r.value)
    ensures (forall k :: i <= k < |raw| ==> raw[k] != '(') ==> r.None?
    decreases |raw| - i
  {
    if i == |raw| then None
    else if raw[i] == '(' then
      var j := RunFrom(raw, i + 1, Digit);
      if j > i + 1 && j < |raw| && raw[j] == ')' then Some(raw[i + 1..j])
      else FindIdFrom(raw, i + 1)
    else FindIdFrom(raw, i + 1)
  }

  function FindId(raw: string): Option<string> {
    FindIdFrom(raw, 0)
  }

  /** The id comment and `STEAM_APPID` line a new profile starts with, when
      the label carries an id. */
  function Header(appid: Option<string>): string {
    match appid
    case Some(id) => "# SDY_ID: " + id + "\nSTEAM_APPID: \"" + id + "\"\n"
    case None => ""
  }

  /** The body of a new profile for `name`. */
  function Skeleton(name: string): string {
    "# Profile for " + name + "\nGAME_WRAPPER: \"\"\nGAME_EXTRA_ARGS: \"\"\nenv_vars:\n  # MANGOHUD: \"1\"\n"
  }

  /** What the game editor shows after `load_game_file`. */
  datatype GameView =
    | Ignored               // the call returned early; the editor is unchanged
    | Existing(text: string) // the profile's contents
    | Fresh(text: string)    // a new profile, not yet saved

  /** `load_game_file(raw)`, with `profiles` the files of `games.d` by name. */
  function LoadGameFile(raw: string, profiles: map<string, string>): (v: GameView)
    ensures v.Ignored? <==> raw == "" || Contains(raw, "/")
    ensures v.Existing? <==> !v.Ignored? && NameOf(raw) + ".yaml" in profiles
    ensures v.Existing? ==> v.text == profiles[NameOf(raw) + ".yaml"]
  {
    if raw == "" || Contains(raw, "/") then Ignored
    else
      var name := NameOf(raw);
      var file := name + ".yaml";
      if file in profiles then Existing(profiles[file])
      else Fresh(Header(FindId(raw)) + Skeleton(name))
  }

  /** `s` has no character `c`. */
  predicate Avoids(s: string, c: char) {
    forall k :: 0 <= k < |s| ==> s[k] != c
  }

  lemma AvoidsNotContains(s: string, c: char)
    requires Avoids(s, c)
    ensures !Contains(s, [c])
  {
    forall k: nat ensures !IsAt(s, [c], k) {
      if k + 1 <= |s| {
        assert s[k..k + 1][0] == s[k];
      }
    }
  }

  /** A name without `(` has no ` (` either. */
  lemma AvoidsParen(s: string)
    requires Avoids(s, '(')
    ensures !Contains(s, " (")
  {
    forall k: nat ensures !IsAt(s, " (", k) {
      if k + 2 <= |s| {
        assert s[k..k + 2][1] == s[k + 1];
      }
    }
  }

  /** The id search finds the id of a label whose name has no `(`. */
  lemma FindIdOfLabel(name: string, id: string)
    requires IsDigits(id) && Avoids(name, '(')
    ensures FindId(name + " (" + id + ")") == Some(id)
  {
    var raw := name + " (" + id + ")";
    var i := |name| + 1;
    assert raw[i] == '(';
    assert RunFrom(raw, i + 1, Digit) == i + 1 + |id| by {
      assert forall k :: i + 1 <= k < i + 1 + |id| ==> raw[k] == id[k - i - 1];
      assert raw[i + 1 + |id|] == ')';
      RunFromExact(raw, i + 1, i + 1 + |id|, Digit);
    }
    assert raw[i + 1..i + 1 + |id|] == id;
    FindIdSkips(raw, 0, i);
  }

  /** The label of a game with an id names it in the new profile: the
      header carries the id and the body the name. */
  lemma FreshProfileCarriesId(name: string, id: string, profiles: map<string, string>)
    requires IsDigits(id) && id != name
    requires name != "" && Avoids(name, '/') && Avoids(name, '(') && Strip(name) == name
    requires name + ".yaml" !in profiles
    ensures LoadGameFile(Label(name, id), profiles) == Fresh(Header(Some(id)) + Skeleton(name))
  {
    var raw := name + " (" + id + ")";
    AvoidsParen(name);
    NameOfLabel(name, id);
    assert Avoids(raw, '/') by {
      assert forall k :: |name| + 2 <= k < |raw| - 1 ==> raw[k] == id[k - |name| - 2];
    }
    AvoidsNotContains(raw, '/');
    FindIdOfLabel(name, id);
  }

  /** The search passes over text without a `(`. */
  lemma {:induction false} FindIdSkips(raw: string, i: nat, j: nat)
    requires i <= j <= |raw|
    requires forall k :: i <= k < j ==> raw[k] != '('
    ensures FindIdFrom(raw, i) == FindIdFrom(raw, j)
    decreases j - i
  {
    if i < j {
      FindIdSkips(raw, i + 1, j);
    }
  }

  /** A label without an id opens a new profile without a header. */
  lemma FreshProfileWithoutId(name: string, profiles: map<string, string>)
    requires name != "" && Avoids(name, '/') && Avoids(name, '(') && Strip(name) == name
    requires name + ".yaml" !in profiles
    ensures LoadGameFile(name, profiles) == Fresh(Skeleton(name))
  {
    AvoidsNotContains(name, '/');
    assert NameOf(name) == name by {
      AvoidsParen(name);
      NameOfLabel(name, name);
      assert Label(name, name) == name;
    }
    assert FindId(name) == None;
    assert Header(None) + Skeleton(name) == Skeleton(name);
  }

  /** `save_game_profile` with the guard `load_game_file` has: the combo
      text is stripped, and an empty one, one holding `/`, or editor text
      that is not valid YAML (`valid`, a parameter here) saves nothing;
      otherwise the editor text goes to `<name>.yaml` in `games.d`. The
      script as written lacks the `/` test; `ProfilePath.SaveAsWritten`
      models that. */
  function SaveGameProfile(raw: string, text: string, valid: bool, profiles: map<string, string>): (r: map<string, string>)
    ensures Strip(raw) == "" || Contains(raw, "/") || !valid ==> r == profiles
    ensures Strip(raw) != "" && !Contains(raw, "/") && valid ==>
      && r.Keys == profiles.Keys + {NameOf(Strip(raw)) + ".yaml"}
      && r[NameOf(Strip(raw)) + ".yaml"] == text
      && forall f :: f in profiles && f != NameOf(Strip(raw)) + ".yaml" ==> r[f] == profiles[f]
  {
    if Strip(raw) == "" || Contains(raw, "/") || !valid then profiles
    else
      var f := NameOf(Strip(raw)) + ".yaml";
      assert (profiles[f := text]).Keys == profiles.Keys + {f};
      profiles[f := text]
  }

  /** A saved profile is what the same label opens next. */
  lemma SaveThenLoad(raw: string, text: string, profiles: map<string, string>)
    requires raw != "" && Strip(raw) == raw && !Contains(raw, "/")
    ensures LoadGameFile(raw, SaveGameProfile(raw, text, true, profiles)) == Existing(text)
  {
  }

  // ---------------------------------------------------------------------
  // Detection

  /** What the two regular expressions of `_parse_game_logs` extract from
      one journal line: the quoted `chdir` path, and the digits after
      `gameID` or `AppID =`. */
  datatype Sighting = Sighting(chdir: Option<string>, id: Option<string>)

  /** The id group is `\d+`. */
  predicate WellFormed(s: Sighting) {
    s.id.Some? ==> IsDigits(s.id.value)
  }

  /** `detected`, in insertion order, as a list of name, value pairs. */
  type Detected = seq<(string, string)>

  predicate UniqueKeys(d: Detected) {
    forall i, j :: 0 <= i < j < |d| ==> d[i].0 != d[j].0
  }

  /** What each entry holds: the name itself, or an id of more than five
      digits. */
  predicate Good(d: Detected) {
    forall i :: 0 <= i < |d| ==> d[i].1 == d[i].0 || (IsDigits(d[i].1) && |d[i].1| > 5)
  }

  /** `detected.get(k)`. */
  function Lookup(d: Detected, k: string): (r: Option<string>)
    ensures r.Some? ==> (k, r.value) in d
    ensures r.None? ==> forall i :: 0 <= i < |d| ==> d[i].0 != k
    decreases |d|
  {
    if |d| == 0 then None
    else if d[0].0 == k then Some(d[0].1)
    else
      var r := Lookup(d[1..], k);
      assert r.None? ==> forall i :: 0 <= i < |d| ==> d[i].0 != k by {
        if r.None? {
          forall i | 0 <= i < |d| ensures d[i].0 != k {
            if i > 0 {
              assert d[i] == d[1..][i - 1];
            }
          }
        }
      }
      r
  }

  /** `detected[k] = v`: an existing entry keeps its place. */
  function Put(d: Detected, k: string, v: string): (r: Detected)
    ensures forall j :: 0 <= j < |r| ==> r[j] == (k, v) || r[j] in d
    ensures Lookup(r, k) == Some(v)
    ensures forall k' :: k' != k ==> Lookup(r, k') == Lookup(d, k')
    ensures UniqueKeys(d) ==> UniqueKeys(r)
    decreases |d|
  {
    if |d| == 0 then [(k, v)]
    else if d[0].0 == k then
      var r := [(k, v)] + d[1..];
      assert forall j :: 1 <= j < |r| ==> r[j] == d[j];
      r
    else
      var t := Put(d[1..], k, v);
      var r := [d[0]] + t;
      assert r[1..] == t;
      assert UniqueKeys(d) ==> UniqueKeys(r) by {
        if UniqueKeys(d) {
          assert d == [d[0]] + d[1..];
          ConsUnique(d[0], d[1..], t, k, v);
        }
      }
      r
  }

  /** Entries drawn from `rest` or equal to `(k, v)` keep keys unique
      behind `d0`, whose key is neither `k` nor any key of `rest`. */
  lemma ConsUnique(d0: (string, string), rest: Detected, t: Detected, k: string, v: string)
    requires UniqueKeys([d0] + rest) && d0.0 != k
    requires forall j :: 0 <= j < |t| ==> t[j] == (k, v) || t[j] in rest
    requires UniqueKeys(rest) ==> UniqueKeys(t)
    ensures UniqueKeys([d0] + t)
  {
    var d := [d0] + rest;
    assert UniqueKeys(rest) by {
      forall i, j | 0 <= i < j < |rest| ensures rest[i].0 != rest[j].0 {
        assert rest[i] == d[i + 1] && rest[j] == d[j + 1];
      }
    }
    forall j | 0 <= j < |t| ensures t[j].0 != d0.0 {
      if t[j] != (k, v) {
        var m :| 0 <= m < |rest| && rest[m] == t[j];
        assert d[0] == d0 && d[m + 1] == t[j];
        assert d[0].0 != d[m + 1].0;
      }
    }
    var r := [d0] + t;
    forall i, j | 0 <= i < j < |r| ensures r[i].0 != r[j].0 {
      assert r[j] == t[j - 1];
      if i > 0 {
        assert r[i] == t[i - 1];
        assert UniqueKeys(t);
        assert t[i - 1].0 != t[j - 1].0;
      }
    }
  }

  /** `Put` keeps `Good` when the new value is the name or a long id. */
  lemma PutGood(d: Detected, k: string, v: string)
    requires Good(d) && (v == k || (IsDigits(v) && |v| > 5))
    ensures Good(Put(d, k, v))
  {
    var r := Put(d, k, v);
    forall j | 0 <= j < |r| ensures r[j].1 == r[j].0 || (IsDigits(r[j].1) && |r[j].1| > 5) {
      if r[j] != (k, v) {
        var m :| 0 <= m < |d| && d[m] == r[j];
      }
    }
  }

  /** `os.path.basename(path.rstrip("/"))`. */
  function BaseName(path: string): (b: string)
    ensures forall k :: 0 <= k < |b| ==> b[k] != '/'
  {
    var p := TrimRight(path, Only('/'));
    AfterLastSlash(p)
  }

  /** The text after the last `/`, or all of it. */
  function AfterLastSlash(p: string): (b: string)
    ensures |b| <= |p| && b == p[|p| - |b|..]
    ensures forall k :: 0 <= k < |b| ==> b[k] != '/'
    decreases |p|
  {
    if |p| == 0 || p[|p| - 1] == '/' then []
    else AfterLastSlash(p[..|p| - 1]) + [p[|p| - 1]]
  }

  /** The loop state: what has been detected and the game directory last
      seen (`curr`). */
  datatype Scan = Scan(detected: Detected, curr: Option<string>)

  /** One journal line. A `chdir` names the current game after the
      directory and records it; an id then replaces the current game's
      entry only when there is a current game with a non-empty name and the
      id has more than five digits. */
  function See(st: Scan, s: Sighting): (r: Scan)
    ensures s.chdir.Some? ==> r.curr == Some(BaseName(s.chdir.value))
    ensures s.chdir.None? ==> r.curr == st.curr
    ensures WellFormed(s) && Good(st.detected) ==> Good(r.detected)
    ensures UniqueKeys(st.detected) ==> UniqueKeys(r.detected)
    ensures forall k :: Lookup(st.detected, k).Some? ==> Lookup(r.detected, k).Some?
  {
    var mid := match s.chdir
      case Some(p) =>
        var b := BaseName(p);
        assert WellFormed(s) && Good(st.detected) ==> Good(Put(st.detected, b, b)) by {
          if Good(st.detected) {
            PutGood(st.detected, b, b);
          }
        }
        Scan(Put(st.detected, b, b), Some(b))
      case None => st;
    match s.id
    case Some(val) =>
      if mid.curr.Some? && mid.curr.value != "" && |val| > 5 then
        assert WellFormed(s) && Good(mid.detected) ==> Good(Put(mid.detected, mid.curr.value, val)) by {
          if WellFormed(s) && Good(mid.detected) {
            PutGood(mid.detected, mid.curr.value, val);
          }
        }
        Scan(Put(mid.detected, mid.curr.value, val), mid.curr)
      else mid
    case None => mid
  }

  /** The loop over the journal lines. */
  function ScanAll(st: Scan, ss: seq<Sighting>): (r: Scan)
    ensures (forall i :: 0 <= i < |ss| ==> WellFormed(ss[i])) && Good(st.detected) ==> Good(r.detected)
    ensures UniqueKeys(st.detected) ==> UniqueKeys(r.detected)
    decreases |ss|
  {
    if |ss| == 0 then st
    else
      assert forall i :: 0 <= i < |ss[1..]| ==> ss[1..][i] == ss[i + 1];
      ScanAll(See(st, ss[0]), ss[1..])
  }

  /** A short id leaves the current game's entry alone. */
  lemma ShortIdIgnored(st: Scan, path: string, id: string)
    requires |id| <= 5
    ensures See(st, Sighting(Some(path), Some(id))).detected == Put(st.detected, BaseName(path), BaseName(path))
    ensures See(st, Sighting(None, Some(id))) == st
  {
  }

  /** A long id, on the line of a `chdir` or after it, replaces the
      directory name as the value of that game. */
  lemma LongIdReplaces(st: Scan, path: string, id: string)
    requires |id| > 5 && BaseName(path) != ""
    ensures Lookup(See(st, Sighting(Some(path), Some(id))).detected, BaseName(path)) == Some(id)
    ensures st.curr.Some? && st.curr.value != "" ==>
      Lookup(See(st, Sighting(None, Some(id))).detected, st.curr.value) == Some(id)
  {
  }

  /** `glob("*.yaml")` keeps the names ending in `.yaml`. */
  predicate IsYaml(f: string) {
    |f| >= 5 && f[|f| - 5..] == ".yaml"
  }

  /** Every profile in `games.d` not already detected is added under its
      stem, with the stem as its value. */
  function AddStems(d: Detected, files: seq<string>): (r: Detected)
    ensures forall k :: Lookup(d, k).Some? ==> Lookup(r, k) == Lookup(d, k)
    ensures forall i :: 0 <= i < |files| && IsYaml(files[i]) ==> Lookup(r, Discovery.Stem(files[i])).Some?
    ensures Good(d) ==> Good(r)
    ensures UniqueKeys(d) ==> UniqueKeys(r)
    decreases |files|
  {
    if |files| == 0 then d
    else
      var f := files[0];
      var st := Discovery.Stem(f);
      var d' := if IsYaml(f) && Lookup(d, st).None? then Put(d, st, st) else d;
      assert Good(d) ==> Good(d') by {
        if Good(d) && IsYaml(f) && Lookup(d, st).None? {
          PutGood(d, st, st);
        }
      }
      assert IsYaml(f) ==> Lookup(d', st).Some?;
      assert forall k :: Lookup(d, k).Some? ==> Lookup(d', k) == Lookup(d, k);
      var r := AddStems(d', files[1..]);
      assert forall i :: 0 <= i < |files| && IsYaml(files[i]) ==> Lookup(r, Discovery.Stem(files[i])).Some? by {
        forall i | 0 <= i < |files| && IsYaml(files[i]) ensures Lookup(r, Discovery.Stem(files[i])).Some? {
          if i > 0 {
            assert files[i] == files[1..][i - 1];
          }
        }
      }
      r
  }

  /** The entries after the journal and `games.d` have been read; `files`
      is `None` when `games.d` does not exist. */
  function Detect(ss: seq<Sighting>, files: Option<seq<string>>): Detected {
    var d := ScanAll(Scan([], None), ss).detected;
    match files
    case Some(fs) => AddStems(d, fs)
    case None => d
  }

  /** One label per entry, in entry order. */
  function LabelsOf(d: Detected): (ls: seq<string>)
    ensures |ls| == |d| && forall i :: 0 <= i < |d| ==> ls[i] == Label(d[i].0, d[i].1)
  {
    seq(|d|, i requires 0 <= i < |d| => Label(d[i].0, d[i].1))
  }

  /** The combo box's list after `_parse_game_logs`. */
  function GameList(ss: seq<Sighting>, files: Option<seq<string>>): (labels: seq<string>)
    ensures Sorted(labels)
    ensures multiset(labels) == multiset(LabelsOf(Detect(ss, files)))
  {
    Sort(LabelsOf(Detect(ss, files)))
  }

  /** Each name is detected at most once, and every value is the name or an
      id of more than five digits. */
  lemma DetectGood(ss: seq<Sighting>, files: Option<seq<string>>)
    requires forall i :: 0 <= i < |ss| ==> WellFormed(ss[i])
    ensures UniqueKeys(Detect(ss, files)) && Good(Detect(ss, files))
  {
  }

  /** Every detected game is listed, with the id when it has one. */
  lemma DetectedListed(ss: seq<Sighting>, files: Option<seq<string>>, name: string)
    requires Lookup(Detect(ss, files), name).Some?
    ensures Label(name, Lookup(Detect(ss, files), name).value) in GameList(ss, files)
  {
    var d := Detect(ss, files);
    var v := Lookup(d, name).value;
    var i :| 0 <= i < |d| && d[i] == (name, v);
    assert LabelsOf(d)[i] == Label(name, v);
    assert Label(name, v) in multiset(LabelsOf(d));
    assert Label(name, v) in multiset(GameList(ss, files));
  }

  /** Every profile in `games.d` is listed, under a label that reads back
      as its stem when the stem has no ` (` and no surrounding whitespace. */
  lemma ProfilesListed(ss: seq<Sighting>, fs: seq<string>, i: nat)
    requires i < |fs| && IsYaml(fs[i])
    ensures Lookup(Detect(ss, Some(fs)), Discovery.Stem(fs[i])).Some?
    ensures var stem := Discovery.Stem(fs[i]);
      !Contains(stem, " (") && Strip(stem) == stem ==>
        exists l :: l in GameList(ss, Some(fs)) && NameOf(l) == stem
  {
    var stem := Discovery.Stem(fs[i]);
    var d0 := ScanAll(Scan([], None), ss).detected;
    var d := Detect(ss, Some(fs));
    assert d == AddStems(d0, fs);
    assert Lookup(d, stem).Some?;
    if !Contains(stem, " (") && Strip(stem) == stem {
      var v := Lookup(d, stem).value;
      DetectedListed(ss, Some(fs), stem);
      NameOfLabel(stem, v);
    }
  }
}
