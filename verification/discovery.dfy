/** The per-game override search of `sdy.py`: starting at the directory
    holding the game's binary and climbing at most three levels, it looks
    in the `games.d` directory for `<binary stem>.conf`, then for
    `<directory name>.conf`, and gives up at the first directory whose name
    marks a library or system root. */
module Discovery {
  import opened Wrappers

  /** An absolute, already resolved path as its components below `/`;
      `[]` is the root directory. */
  type Path = seq<string>

  /** `Path.name`: the last component, `""` for the root. */
  function Name(p: Path): string {
    if |p| == 0 then "" else p[|p| - 1]
  }

  /** `Path.parent`: the root is its own parent. */
  function Parent(p: Path): Path {
    if |p| == 0 then p else p[..|p| - 1]
  }

  /** `p` after `k` steps of `Parent`. */
  function Ancestor(p: Path, k: nat): (a: Path)
    ensures a == if k <= |p| then p[..|p| - k] else []
    decreases k
  {
    if k == 0 then p else Parent(Ancestor(p, k - 1))
  }

  /** Directory names at which the climb stops without looking further. */
  const Stops: set<string> := {"common", "steamapps", "GOG Games", "Games", "home", "bin"}

  /** How many directories the climb examines at most. */
  const MaxLevels: nat := 3

  /** The index of the last `.` in `s`, as `str.rfind('.')`. */
  function LastDot(s: string): (r: Option<nat>)
    ensures r.Some? ==> r.value < |s| && s[r.value] == '.' && forall j :: r.value < j < |s| ==> s[j] != '.'
    ensures r.None? ==> forall j :: 0 <= j < |s| ==> s[j] != '.'
    decreases |s|
  {
    if |s| == 0 then None
    else if s[|s| - 1] == '.' then Some(|s| - 1)
    else LastDot(s[..|s| - 1])
  }

  /** `PurePath.stem` of a file name: the name without its last suffix; a
      leading dot or a trailing dot does not start a suffix. */
  function Stem(name: string): string {
    match LastDot(name)
    case Some(i) => if 0 < i < |name| - 1 then name[..i] else name
    case None => name
  }

  /** The stem of an override file is the name it was looked up by. */
  lemma StemOfConf(x: string)
    requires |x| > 0
    ensures Stem(x + ".conf") == x
  {
    var name := x + ".conf";
    assert name[|x|] == '.';
    assert forall j :: |x| < j < |name| ==> name[j] != '.' by {
      assert name[|x| + 1..] == "conf";
    }
    assert LastDot(name) == Some(|x|);
    assert name[..|x|] == x;
  }

  /** The directories the climb examines from `start` onwards, `level`
      steps up already: each is the parent of the one before, and the list
      ends after `MaxLevels` of them or before the first stop directory. */
  function Examined(start: Path, level: nat): (ds: seq<Path>)
    requires level <= MaxLevels
    ensures |ds| <= MaxLevels - level
    ensures forall i :: 0 <= i < |ds| ==> ds[i] == Ancestor(start, level + i) && Name(ds[i]) !in Stops
    ensures level + |ds| < MaxLevels ==> Name(Ancestor(start, level + |ds|)) in Stops
    decreases MaxLevels - level
  {
    if level == MaxLevels || Name(Ancestor(start, level)) in Stops then []
    else
      var rest := Examined(start, level + 1);
      ExaminedCons(start, level, rest);
      [Ancestor(start, level)] + rest
  }

  /** A directory that is no stop, put before the directories examined
      from its parent, gives the directories examined from it. */
  lemma ExaminedCons(start: Path, level: nat, rest: seq<Path>)
    requires level < MaxLevels && Name(Ancestor(start, level)) !in Stops
    requires |rest| <= MaxLevels - (level + 1)
    requires forall i :: 0 <= i < |rest| ==> rest[i] == Ancestor(start, level + 1 + i) && Name(rest[i]) !in Stops
    requires level + 1 + |rest| < MaxLevels ==> Name(Ancestor(start, level + 1 + |rest|)) in Stops
    ensures var ds := [Ancestor(start, level)] + rest;
      && |ds| <= MaxLevels - level
      && (forall i :: 0 <= i < |ds| ==> ds[i] == Ancestor(start, level + i) && Name(ds[i]) !in Stops)
      && (level + |ds| < MaxLevels ==> Name(Ancestor(start, level + |ds|)) in Stops)
  {
    var ds := [Ancestor(start, level)] + rest;
    forall i | 1 <= i < |ds| ensures ds[i] == Ancestor(start, level + i) {
      assert ds[i] == rest[i - 1];
    }
  }

  /** The override file names tried, in order, in the examined directories:
      at each level the binary's own name before the directory's name. */
  function Candidates(exe: string, dirs: seq<Path>): (cs: seq<string>)
    ensures |cs| == 2 * |dirs|
    ensures forall i :: 0 <= i < |dirs| ==> cs[2 * i] == exe + ".conf" && cs[2 * i + 1] == Name(dirs[i]) + ".conf"
  {
    if |dirs| == 0 then []
    else [exe + ".conf", Name(dirs[0]) + ".conf"] + Candidates(exe, dirs[1..])
  }

  /** The first candidate that exists. */
  function FirstIn(cs: seq<string>, existing: set<string>): (r: Option<string>)
    ensures r.Some? ==> exists i :: (0 <= i < |cs| && cs[i] == r.value && r.value in existing
      && forall j :: 0 <= j < i ==> cs[j] !in existing)
    ensures r.None? ==> forall i :: 0 <= i < |cs| ==> cs[i] !in existing
  {
    if |cs| == 0 then None
    else if cs[0] in existing then Some(cs[0])
    else
      var r := FirstIn(cs[1..], existing);
      assert r.Some? ==> exists i :: (0 <= i < |cs| && cs[i] == r.value && r.value in existing
        && forall j :: 0 <= j < i ==> cs[j] !in existing) by {
        if r.Some? {
          var i :| 0 <= i < |cs[1..]| && cs[1..][i] == r.value && r.value in existing
            && forall j :: 0 <= j < i ==> cs[1..][j] !in existing;
          assert cs[i + 1] == r.value;
          assert forall j :: 0 <= j < i + 1 ==> cs[j] !in existing by {
            forall j | 0 <= j < i + 1 ensures cs[j] !in existing {
              if j > 0 {
                assert cs[j] == cs[1..][j - 1];
              }
            }
          }
        }
      }
      assert r.None? ==> forall i :: 0 <= i < |cs| ==> cs[i] !in existing by {
        if r.None? {
          forall i | 0 <= i < |cs| ensures cs[i] !in existing {
            if i > 0 {
              assert cs[i] == cs[1..][i - 1];
            }
          }
        }
      }
      r
  }

  /** Looking through a list in two parts finds the first part's hit, or
      else the second part's. */
  lemma {:induction false} FirstInAppend(a: seq<string>, b: seq<string>, existing: set<string>)
    ensures FirstIn(a + b, existing) == if FirstIn(a, existing).Some? then FirstIn(a, existing) else FirstIn(b, existing)
    decreases |a|
  {
    if |a| == 0 {
      assert a + b == b;
    } else {
      assert (a + b)[1..] == a[1..] + b;
      FirstInAppend(a[1..], b, existing);
    }
  }

  /** The override the search settles on: the first of `Candidates` over
      the `Examined` directories, starting at the binary's directory, that
      exists among the files of `games.d`. */
  function Found(exe: string, binDir: Path, existing: set<string>): Option<string> {
    FirstIn(Candidates(exe, Examined(binDir, 0)), existing)
  }

  /** The discovery loop of `run()`, step by step as the script takes it:
      `binDir` is the binary's directory, `existing` the files of
      `games.d`. */
  method Discover(exe: string, binDir: Path, existing: set<string>) returns (found: Option<string>)
    ensures found == Found(exe, binDir, existing)
  {
    found := None;
    var current := binDir;
    for level := 0 to MaxLevels
      invariant current == Ancestor(binDir, level)
      invariant Found(exe, binDir, existing) == FirstIn(Candidates(exe, Examined(binDir, level)), existing)
    {
      if Name(current) in Stops {
        break;
      }
      var nameCheck := Name(current);
      var checks := [exe + ".conf", nameCheck + ".conf"];
      assert Candidates(exe, Examined(binDir, level)) == checks + Candidates(exe, Examined(binDir, level + 1));
      FirstInAppend(checks, Candidates(exe, Examined(binDir, level + 1)), existing);
      if checks[0] in existing {
        found := Some(checks[0]);
        break;
      }
      if checks[1] in existing {
        found := Some(checks[1]);
        break;
      }
      current := Parent(current);
    }
  }

  /** `game_id`: the stem of the override found, else the binary's stem. */
  function GameId(exe: string, found: Option<string>): string {
    match found
    case Some(file) => Stem(file)
    case None => exe
  }

  /** A binary-named override, present in `games.d`, wins as soon as the
      binary's own directory is not a stop directory, and it names the
      game after the binary. */
  lemma ExeConfWins(exe: string, binDir: Path, existing: set<string>)
    requires exe + ".conf" in existing && Name(binDir) !in Stops
    ensures Found(exe, binDir, existing) == Some(exe + ".conf")
    ensures |exe| > 0 ==> GameId(exe, Found(exe, binDir, existing)) == exe
  {
    var ds := Examined(binDir, 0);
    assert |ds| > 0;
    var cs := Candidates(exe, ds);
    assert cs[0] == exe + ".conf";
    if |exe| > 0 {
      StemOfConf(exe);
    }
  }

  /** A binary directly inside a stop directory never gets an override,
      and its game is named after the binary. */
  lemma StopDirectoryBlocks(exe: string, binDir: Path, existing: set<string>)
    requires Name(binDir) in Stops
    ensures Found(exe, binDir, existing) == None
    ensures GameId(exe, Found(exe, binDir, existing)) == exe
  {
    assert Examined(binDir, 0) == [];
  }

  /** Whatever the search finds is one of the names it may look up: the
      binary's, or that of one of the (at most three) directories it
      examined, none of them a stop directory. */
  lemma FoundIsCandidate(exe: string, binDir: Path, existing: set<string>)
    requires Found(exe, binDir, existing).Some?
    ensures Found(exe, binDir, existing).value in existing
    ensures || Found(exe, binDir, existing).value == exe + ".conf"
            || exists k :: 0 <= k < MaxLevels && Name(Ancestor(binDir, k)) !in Stops
                 && Found(exe, binDir, existing).value == Name(Ancestor(binDir, k)) + ".conf"
  {
    var ds := Examined(binDir, 0);
    var cs := Candidates(exe, ds);
    var f := Found(exe, binDir, existing).value;
    var i :| 0 <= i < |cs| && cs[i] == f && f in existing;
    CandidateAt(exe, ds, i);
    if f != exe + ".conf" {
      var k := i / 2;
      assert f == Name(ds[k]) + ".conf";
      assert ds[k] == Ancestor(binDir, k) && Name(ds[k]) !in Stops && k < MaxLevels;
      assert 0 <= k < MaxLevels && Name(Ancestor(binDir, k)) !in Stops && f == Name(Ancestor(binDir, k)) + ".conf";
    }
  }

  /** Candidate `i` is the binary's name or that of directory `i / 2`. */
  lemma CandidateAt(exe: string, ds: seq<Path>, i: nat)
    requires i < 2 * |ds|
    ensures i / 2 < |ds|
    ensures || Candidates(exe, ds)[i] == exe + ".conf"
            || Candidates(exe, ds)[i] == Name(ds[i / 2]) + ".conf"
  {
    var k := i / 2;
    if i % 2 == 0 {
      assert i == 2 * k;
    } else {
      assert i == 2 * k + 1;
    }
  }
}
