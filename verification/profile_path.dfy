/** Where `save_game_profile` of `control_center.py` writes. The combo-box
    text, read as a profile name, is joined onto `games.d` with pathlib's
    `/`. Unlike `load_game_file`, the save does not refuse a name holding
    `/`, so such a name can climb out of `games.d` or leave the
    configuration root altogether. */
module ProfilePath {
  import opened Wrappers
  import opened PyText
  import opened Discovery
  import opened GameLabels

  // ---------------------------------------------------------------------
  // pathlib

  /** What pathlib keeps of one piece between slashes: an empty piece (from
      a leading, doubled or trailing `/`) and `.` vanish, `..` stays. */
  function Keep(piece: string): seq<string> {
    if piece == "" || piece == "." then [] else [piece]
  }

  /** The components pathlib parses from `s`, index `i` on. */
  function PartsFrom(s: string, i: nat): seq<string>
    requires i <= |s|
    decreases |s| - i
  {
    var j := RunFrom(s, i, AllBut('/'));
    Keep(s[i..j]) + if j < |s| then PartsFrom(s, j + 1) else []
  }

  function Parts(s: string): seq<string> {
    PartsFrom(s, 0)
  }

  /** `base / rel`: a relative name extends `base`, an absolute one
      replaces it. */
  function Join(base: Path, rel: string): Path {
    if |rel| > 0 && rel[0] == '/' then Parts(rel) else base + Parts(rel)
  }

  /** The path the components `ps` name, taken from the directory `at`:
      each `..` drops the last component. The system resolves `x/..` the
      same way only when `x` is a directory on disk (`UpsExist`), and
      symbolic links aside. */
  function ResolveFrom(at: Path, ps: seq<string>): Path
    decreases |ps|
  {
    if |ps| == 0 then at
    else ResolveFrom(if ps[0] == ".." then Parent(at) else at + [ps[0]], ps[1..])
  }

  function Resolved(p: Path): Path {
    ResolveFrom([], p)
  }

  /** No component of `p` steps up. */
  predicate NoUp(p: Path) {
    forall k :: 0 <= k < |p| ==> p[k] != ".."
  }

  /** Components that never step up are simply appended. */
  lemma {:induction false} ResolvePlain(at: Path, ps: seq<string>)
    requires NoUp(ps)
    ensures ResolveFrom(at, ps) == at + ps
    decreases |ps|
  {
    if |ps| > 0 {
      assert NoUp(ps[1..]) by {
        forall k | 0 <= k < |ps[1..]| ensures ps[1..][k] != ".." {
          assert ps[1..][k] == ps[k + 1];
        }
      }
      ResolvePlain(at + [ps[0]], ps[1..]);
      assert at + [ps[0]] + ps[1..] == at + ps;
    }
  }

  /** Every `..` in `ps`, taken from `at`, steps out of a directory that
      exists: one `isDir` names, the configuration root or a directory
      above it, or `games.d`, which the save creates first. Otherwise the
      system refuses to open the path. */
  predicate UpsExist(root: Path, isDir: Path -> bool, at: Path, ps: seq<string>)
    decreases |ps|
  {
    || |ps| == 0
    || (&& (ps[0] == ".." ==> OnDisk(root, isDir, at))
        && UpsExist(root, isDir, if ps[0] == ".." then Parent(at) else at + [ps[0]], ps[1..]))
  }

  /** `p` is a directory the save can count on. */
  predicate OnDisk(root: Path, isDir: Path -> bool, p: Path) {
    isDir(p) || p == GamesDir(root) || (|p| <= |root| && p == root[..|p|])
  }

  /** Components that never step up never need a directory. */
  lemma {:induction false} UpsExistPlain(root: Path, isDir: Path -> bool, at: Path, ps: seq<string>)
    requires NoUp(ps)
    ensures UpsExist(root, isDir, at, ps)
    decreases |ps|
  {
    if |ps| > 0 {
      assert NoUp(ps[1..]) by {
        forall k | 0 <= k < |ps[1..]| ensures ps[1..][k] != ".." {
          assert ps[1..][k] == ps[k + 1];
        }
      }
      UpsExistPlain(root, isDir, at + [ps[0]], ps[1..]);
    }
  }

  /** `p + q` steps only out of existing directories exactly when `p` does
      and `q` does from where `p` leads. */
  lemma {:induction false} UpsExistAppend(root: Path, isDir: Path -> bool, at: Path, p: seq<string>, q: seq<string>)
    ensures UpsExist(root, isDir, at, p + q) <==>
      UpsExist(root, isDir, at, p) && UpsExist(root, isDir, ResolveFrom(at, p), q)
    decreases |p|
  {
    if |p| == 0 {
      assert p + q == q;
    } else {
      assert (p + q)[0] == p[0] && (p + q)[1..] == p[1..] + q;
      UpsExistAppend(root, isDir, if p[0] == ".." then Parent(at) else at + [p[0]], p[1..], q);
    }
  }

  /** Resolving `p + q` is resolving `q` from where `p` leads. */
  lemma {:induction false} ResolveAppend(at: Path, p: seq<string>, q: seq<string>)
    ensures ResolveFrom(at, p + q) == ResolveFrom(ResolveFrom(at, p), q)
    decreases |p|
  {
    if |p| == 0 {
      assert p + q == q;
    } else {
      assert (p + q)[0] == p[0] && (p + q)[1..] == p[1..] + q;
      ResolveAppend(if p[0] == ".." then Parent(at) else at + [p[0]], p[1..], q);
    }
  }

  /** The rest of `s` from `i`, holding no `/`, is one piece. */
  lemma PartsOfPiece(s: string, i: nat)
    requires i <= |s|
    requires forall k :: i <= k < |s| ==> s[k] != '/'
    ensures PartsFrom(s, i) == Keep(s[i..])
  {
    RunFromExact(s, i, |s|, AllBut('/'));
    assert s[i..|s|] == s[i..];
    assert PartsFrom(s, i) == Keep(s[i..|s|]) + [];
  }

  /** One step of the parse: the piece up to the next `/`, then the rest. */
  lemma PartsFromUnfold(s: string, i: nat)
    requires i <= |s|
    ensures var j := RunFrom(s, i, AllBut('/'));
      PartsFrom(s, i) == Keep(s[i..j]) + if j < |s| then PartsFrom(s, j + 1) else []
  {
  }

  /** The piece from `i` ends at the first `/`, at `j`. */
  lemma PartsAtSlash(s: string, i: nat, j: nat)
    requires i <= j < |s| && s[j] == '/'
    requires forall k :: i <= k < j ==> s[k] != '/'
    ensures PartsFrom(s, i) == Keep(s[i..j]) + PartsFrom(s, j + 1)
  {
    RunFromExact(s, i, j, AllBut('/'));
    PartsFromUnfold(s, i);
  }

  // ---------------------------------------------------------------------
  // The save

  /** `conf_root / "games.d"`. */
  function GamesDir(root: Path): Path {
    root + ["games.d"]
  }

  /** `p` is a file directly inside `games.d`. */
  predicate InGamesDir(root: Path, p: Path) {
    |p| == |root| + 2 && p[..|root| + 1] == GamesDir(root)
  }

  /** How a save ends. */
  datatype SaveResult =
    | Skipped                         // a blank combo text: nothing happens
    | Refused                         // `_atomic_save` caught an error and showed it; no file changed
    | Wrote(path: Path, text: string) // the file at `path` now holds `text`

  /** The file the save targets for the combo text `raw`. */
  function Target(root: Path, raw: string): Path {
    Resolved(Join(GamesDir(root), NameOf(Strip(raw)) + ".yaml"))
  }

  /** The components the save joins for the combo text `raw`. */
  function Joined(root: Path, raw: string): Path {
    Join(GamesDir(root), NameOf(Strip(raw)) + ".yaml")
  }

  /** `save_game_profile` as written. `root` is the configuration root,
      `valid` whether the editor text parses as YAML, `isDir(p)` whether
      `p` is an existing directory, and `creatable(dir)` whether the user
      may create a file in `dir`; the root and `games.d`, which the save
      creates just before writing, always allow it. An open that fails,
      through a `..` after a missing directory or in a directory that
      refuses the file, is caught and shown: the save is refused. */
  function SaveAsWritten(raw: string, text: string, valid: bool, root: Path,
                         isDir: Path -> bool, creatable: Path -> bool): (r: SaveResult)
    ensures r.Skipped? <==> Strip(raw) == ""
    ensures Strip(raw) != "" && !valid ==> r.Refused?
    ensures r.Wrote? ==> r.text == text && r.path == Target(root, raw)
    ensures r.Wrote? ==> UpsExist(root, isDir, [], Joined(root, raw))
  {
    if Strip(raw) == "" then Skipped
    else
      var dir := Parent(Target(root, raw));
      if valid && UpsExist(root, isDir, [], Joined(root, raw)) && (dir == root || dir == GamesDir(root) || creatable(dir))
      then Wrote(Target(root, raw), text)
      else Refused
  }

  /** A text without `/` as a substring has no `/` character. */
  lemma NoSlashAvoids(s: string)
    requires !Contains(s, "/")
    ensures Avoids(s, '/')
  {
    forall k | 0 <= k < |s| ensures s[k] != '/' {
      assert !IsAt(s, "/", k);
      assert s[k..k + 1] == [s[k]];
    }
  }

  /** The profile name is cut out of the combo text, so it has no
      character the text lacks. */
  lemma NameAvoids(raw: string, c: char)
    requires Avoids(raw, c)
    ensures Avoids(NameOf(Strip(raw)), c)
  {
    var s := Strip(raw);
    TrimSlice(raw, Space);
    assert Avoids(s, c) by {
      forall k | 0 <= k < |s| ensures s[k] != c {
        assert s[k] == raw[Lead(raw, Space) + k];
      }
    }
    var b := Before(s, " (");
    assert Avoids(b, c) by {
      forall k | 0 <= k < |b| ensures b[k] != c {
        assert b[k] == s[k];
      }
    }
    var n := Strip(b);
    TrimSlice(b, Space);
    forall k | 0 <= k < |n| ensures n[k] != c {
      assert n[k] == b[Lead(b, Space) + k];
    }
  }

  /** A `/` character is a `/` substring. */
  lemma SlashContained(s: string, k: nat)
    requires k < |s| && s[k] == '/'
    ensures Contains(s, "/")
  {
    assert s[k..k + 1] == "/";
    ContainsAt(s, "/", k);
  }

  /** A name with no `/` keeps none when `.yaml` is appended. */
  lemma YamlAvoids(x: string, c: char)
    requires Avoids(x, c) && c != '.' && c != 'y' && c != 'a' && c != 'm' && c != 'l'
    ensures Avoids(x + ".yaml", c)
  {
    var f := x + ".yaml";
    assert f[|x|..] == ".yaml";
    forall k | 0 <= k < |f| ensures f[k] != c {
      if k < |x| {
        assert f[k] == x[k];
      } else {
        assert f[k] == f[|x|..][k - |x|];
      }
    }
  }

  /** A file name is one component. */
  lemma PartsOfName(f: string)
    requires Avoids(f, '/') && |f| >= 2
    ensures Parts(f) == [f]
  {
    PartsOfPiece(f, 0);
    assert f[0..] == f;
  }

  /** `../<f>` is a step up, then `f`. */
  lemma PartsOfUp(f: string)
    requires Avoids(f, '/') && |f| >= 2
    ensures Parts("../" + f) == ["..", f]
  {
    var s := "../" + f;
    PartsAtSlash(s, 0, 2);
    assert s[0..2] == "..";
    assert s[3..] == f;
    forall k | 3 <= k < |s| ensures s[k] != '/' {
      assert s[k] == f[k - 3];
    }
    PartsOfPiece(s, 3);
  }

  /** `/<f>` is `f` under the root directory. */
  lemma PartsOfAbsolute(f: string)
    requires Avoids(f, '/') && |f| >= 2
    ensures Parts("/" + f) == [f]
  {
    var s := "/" + f;
    PartsAtSlash(s, 0, 0);
    assert s[0..0] == "";
    assert s[1..] == f;
    forall k | 1 <= k < |s| ensures s[k] != '/' {
      assert s[k] == f[k - 1];
    }
    PartsOfPiece(s, 1);
  }

  /** A stripped name with no `(` is its own profile name. */
  lemma NameOfItself(s: string)
    requires Strip(s) == s && Avoids(s, '(')
    ensures NameOf(Strip(s)) == s
  {
    AvoidsParen(s);
  }

  /** `pre + x` is stripped when `x` is and `pre` starts with no space. */
  lemma StripPrefixed(pre: string, x: string)
    requires |pre| > 0 && !IsSpace(pre[0]) && x != "" && Strip(x) == x
    ensures Strip(pre + x) == pre + x
  {
    assert !IsSpace(x[|x| - 1]);
    TrimOfTrimmed(pre + x, Space);
  }

  /** `pre + x` has no `(` when neither part has. */
  lemma AvoidsPrefixed(pre: string, x: string, c: char)
    requires Avoids(pre, c) && Avoids(x, c)
    ensures Avoids(pre + x, c)
  {
    var s := pre + x;
    forall k | 0 <= k < |s| ensures s[k] != c {
      if k >= |pre| {
        assert s[k] == x[k - |pre|];
      }
    }
  }

  lemma GamesDirNoUp(root: Path)
    requires NoUp(root)
    ensures NoUp(GamesDir(root)) && Resolved(GamesDir(root)) == GamesDir(root)
  {
    var g := GamesDir(root);
    forall k | 0 <= k < |g| ensures g[k] != ".." {
      if k < |root| {
        assert g[k] == root[k];
      }
    }
    ResolvePlain([], g);
    assert [] + g == g;
  }

  /** A file of `games.d` resolves to itself. */
  lemma ResolveInGamesDir(root: Path, f: string)
    requires NoUp(root) && f != ".."
    ensures NoUp(GamesDir(root) + [f])
    ensures Resolved(GamesDir(root) + [f]) == GamesDir(root) + [f]
    ensures InGamesDir(root, GamesDir(root) + [f])
  {
    GamesDirNoUp(root);
    var g := GamesDir(root) + [f];
    forall k | 0 <= k < |g| ensures g[k] != ".." {
      if k < |GamesDir(root)| {
        assert g[k] == GamesDir(root)[k];
      }
    }
    ResolveAppend([], GamesDir(root), [f]);
    assert ResolveFrom(GamesDir(root), [f]) == ResolveFrom(GamesDir(root) + [f], []);
    assert (GamesDir(root) + [f])[..|root| + 1] == GamesDir(root);
  }

  /** `games.d/../<f>` is `<f>` in the configuration root. */
  lemma ResolveUpFromGamesDir(root: Path, f: string)
    requires NoUp(root) && f != ".."
    ensures Resolved(GamesDir(root) + ["..", f]) == root + [f]
  {
    GamesDirNoUp(root);
    ResolveAppend([], GamesDir(root), ["..", f]);
    assert Parent(GamesDir(root)) == root;
    assert ["..", f][1..] == [f];
    assert ResolveFrom(GamesDir(root), ["..", f]) == ResolveFrom(root, [f]);
    assert ResolveFrom(root, [f]) == ResolveFrom(root + [f], []);
  }

  /** A name with no `/` is saved as a file of `games.d`, and there the
      written code and the corrected save agree: the file written is the
      profile the corrected save stores. */
  lemma PlainNameSavedInGamesDir(raw: string, text: string, root: Path, isDir: Path -> bool,
                                 creatable: Path -> bool, profiles: map<string, string>)
    requires NoUp(root)
    requires Strip(raw) != "" && !Contains(raw, "/")
    ensures var f := NameOf(Strip(raw)) + ".yaml";
      && SaveAsWritten(raw, text, true, root, isDir, creatable) == Wrote(GamesDir(root) + [f], text)
      && InGamesDir(root, GamesDir(root) + [f])
      && SaveGameProfile(raw, text, true, profiles) == profiles[f := text]
  {
    var f := NameOf(Strip(raw)) + ".yaml";
    NoSlashAvoids(raw);
    NameAvoids(raw, '/');
    YamlAvoids(NameOf(Strip(raw)), '/');
    PartsOfName(f);
    assert f[|f| - 5] == '.';
    assert Join(GamesDir(root), f) == GamesDir(root) + [f];
    ResolveInGamesDir(root, f);
    UpsExistPlain(root, isDir, [], GamesDir(root) + [f]);
    assert Parent(GamesDir(root) + [f]) == GamesDir(root);
  }

  /** `games.d` joined with `../<f>` is `<f>` in the configuration root. */
  lemma UpJoin(root: Path, f: string)
    requires NoUp(root) && Avoids(f, '/') && |f| >= 2 && f != ".."
    ensures Join(GamesDir(root), "../" + f) == GamesDir(root) + ["..", f]
    ensures Resolved(Join(GamesDir(root), "../" + f)) == root + [f]
  {
    PartsOfUp(f);
    assert Join(GamesDir(root), "../" + f) == GamesDir(root) + ["..", f];
    ResolveUpFromGamesDir(root, f);
  }

  /** Where `../<x>` leads. */
  lemma UpTarget(x: string, root: Path)
    requires NoUp(root)
    requires x != "" && Strip(x) == x && Avoids(x, '/') && Avoids(x, '(')
    ensures Strip("../" + x) == "../" + x && Contains("../" + x, "/")
    ensures Joined(root, "../" + x) == GamesDir(root) + ["..", x + ".yaml"]
    ensures Target(root, "../" + x) == root + [x + ".yaml"]
  {
    var raw := "../" + x;
    PrefixedName("../", x);
    var xy := x + ".yaml";
    YamlAvoids(x, '/');
    assert xy[|xy| - 5] == '.';
    assert NameOf(Strip(raw)) + ".yaml" == "../" + xy;
    UpJoin(root, xy);
    SlashContained(raw, 2);
  }

  /** The combo text `../<x>`, with `x` a plain name, climbs out of
      `games.d`: the written code overwrites `<x>.yaml` in the
      configuration root, where the global `config.yaml` lives, while the
      corrected save stores nothing. */
  lemma ParentNameEscapes(x: string, text: string, root: Path, isDir: Path -> bool,
                          creatable: Path -> bool, profiles: map<string, string>)
    requires NoUp(root)
    requires x != "" && Strip(x) == x && Avoids(x, '/') && Avoids(x, '(')
    ensures SaveAsWritten("../" + x, text, true, root, isDir, creatable) == Wrote(root + [x + ".yaml"], text)
    ensures !InGamesDir(root, root + [x + ".yaml"])
    ensures SaveGameProfile("../" + x, text, true, profiles) == profiles
  {
    UpTarget(x, root);
    UpFromGamesDirExists(root, isDir, x + ".yaml");
    assert Parent(root + [x + ".yaml"]) == root;
  }

  /** Stepping up out of `games.d` always finds it on disk. */
  lemma UpFromGamesDirExists(root: Path, isDir: Path -> bool, f: string)
    requires NoUp(root) && f != ".."
    ensures UpsExist(root, isDir, [], GamesDir(root) + ["..", f])
  {
    GamesDirNoUp(root);
    UpsExistAppend(root, isDir, [], GamesDir(root), ["..", f]);
    UpsExistPlain(root, isDir, [], GamesDir(root));
    assert ResolveFrom([], GamesDir(root)) == GamesDir(root);
    assert ["..", f][1..] == [f];
    UpsExistPlain(root, isDir, root, [f]);
    assert Parent(GamesDir(root)) == root;
  }

  /** The profile name of a stripped `<pre><x>`. */
  lemma PrefixedName(pre: string, x: string)
    requires |pre| > 0 && !IsSpace(pre[0]) && Avoids(pre, '(')
    requires x != "" && Strip(x) == x && Avoids(x, '(')
    ensures Strip(pre + x) == pre + x && NameOf(Strip(pre + x)) == pre + x
  {
    StripPrefixed(pre, x);
    AvoidsPrefixed(pre, x, '(');
    NameOfItself(pre + x);
  }

  /** An absolute file name replaces the base. */
  lemma AbsoluteJoin(base: Path, f: string)
    requires Avoids(f, '/') && |f| >= 2 && f != ".."
    ensures Join(base, "/" + f) == [f]
    ensures Resolved(Join(base, "/" + f)) == [f]
  {
    PartsOfAbsolute(f);
    assert ResolveFrom([], [f]) == ResolveFrom([] + [f], []);
  }

  /** The combo text `/<x>` is its own profile name. */
  lemma AbsoluteName(x: string)
    requires x != "" && Strip(x) == x && Avoids(x, '(')
    ensures Strip("/" + x) == "/" + x && Contains("/" + x, "/")
    ensures NameOf(Strip("/" + x)) + ".yaml" == "/" + (x + ".yaml")
  {
    PrefixedName("/", x);
    SlashContained("/" + x, 0);
    Regroup("/", x, ".yaml");
  }

  /** Appending regroups. */
  lemma Regroup(a: string, b: string, c: string)
    ensures (a + b) + c == a + (b + c)
  {
  }

  /** Where `/<x>` leads. */
  lemma AbsoluteTarget(x: string, root: Path)
    requires x != "" && Strip(x) == x && Avoids(x, '/') && Avoids(x, '(')
    ensures Strip("/" + x) == "/" + x && Contains("/" + x, "/")
    ensures Joined(root, "/" + x) == [x + ".yaml"]
    ensures Target(root, "/" + x) == [x + ".yaml"]
  {
    AbsoluteName(x);
    var xy := x + ".yaml";
    YamlAvoids(x, '/');
    assert xy[|xy| - 5] == '.';
    AbsoluteJoin(GamesDir(root), xy);
  }

  /** The combo text `/<x>` leaves the configuration root altogether:
      pathlib drops everything before an absolute name, so the written code
      targets `/<x>.yaml`, which is never a profile, while the corrected
      save stores nothing. */
  lemma AbsoluteNameEscapes(x: string, text: string, root: Path, isDir: Path -> bool,
                            creatable: Path -> bool, profiles: map<string, string>)
    requires |root| > 0
    requires x != "" && Strip(x) == x && Avoids(x, '/') && Avoids(x, '(')
    ensures SaveAsWritten("/" + x, text, true, root, isDir, creatable)
      == if creatable([]) then Wrote([x + ".yaml"], text) else Refused
    ensures !InGamesDir(root, [x + ".yaml"])
    ensures SaveGameProfile("/" + x, text, true, profiles) == profiles
  {
    AbsoluteTarget(x, root);
    UpsExistPlain(root, isDir, [], [x + ".yaml"]);
    assert Parent([x + ".yaml"]) == [];
  }

  /** From `i`, `../<f>` is a step up, then `f`. */
  lemma PartsOfUpAt(s: string, i: nat, f: string)
    requires i + 3 <= |s| && s[i..i + 3] == "../" && s[i + 3..] == f
    requires Avoids(f, '/') && |f| >= 2
    ensures PartsFrom(s, i) == ["..", f]
  {
    assert s[i + 2] == s[i..i + 3][2] == '/';
    assert s[i] == s[i..i + 3][0] && s[i + 1] == s[i..i + 3][1];
    PartsAtSlash(s, i, i + 2);
    assert s[i..i + 2] == "..";
    forall k | i + 3 <= k < |s| ensures s[k] != '/' {
      assert s[k] == f[k - i - 3];
    }
    PartsOfPiece(s, i + 3);
  }

  /** `<x>/../<f>` is `x`, a step up, then `f`. */
  lemma PartsOfDetour(x: string, f: string)
    requires Avoids(x, '/') && x != "" && x != "."
    requires Avoids(f, '/') && |f| >= 2
    ensures Parts(x + "/../" + f) == [x, "..", f]
  {
    var s := x + "/../" + f;
    forall k | 0 <= k < |x| ensures s[k] != '/' {
      assert s[k] == x[k];
    }
    assert s[..|x|] == x && s[|x|] == '/' && s[|x| + 1..|x| + 4] == "../" && s[|x| + 4..] == f;
    PartsOfDetourIn(s, |x|, f);
  }

  /** The first piece of `s` ends at `n`, and `../<f>` follows it. */
  lemma PartsOfDetourIn(s: string, n: nat, f: string)
    requires n + 4 <= |s| && s[n] == '/' && s[..n] != "" && s[..n] != "."
    requires forall k :: 0 <= k < n ==> s[k] != '/'
    requires s[n + 1..n + 4] == "../" && s[n + 4..] == f
    requires Avoids(f, '/') && |f| >= 2
    ensures Parts(s) == [s[..n], "..", f]
  {
    assert PartsFrom(s, n + 1) == ["..", f] by {
      PartsOfUpAt(s, n + 1, f);
    }
    assert Keep(s[0..n]) == [s[..n]] by {
      assert s[0..n] == s[..n];
    }
    assert PartsFrom(s, 0) == Keep(s[0..n]) + PartsFrom(s, n + 1) by {
      PartsAtSlash(s, 0, n);
    }
  }

  /** The combo text `<x>/../<y>` is its own profile name. */
  lemma DetourName(x: string, y: string)
    requires x != "" && Strip(x) == x && Avoids(x, '/') && Avoids(x, '(')
    requires y != "" && Strip(y) == y && Avoids(y, '(')
    ensures Strip(x + "/../" + y) == x + "/../" + y != "" && Contains(x + "/../" + y, "/")
    ensures NameOf(Strip(x + "/../" + y)) + ".yaml" == x + "/../" + (y + ".yaml")
  {
    var pre := x + "/../";
    assert |pre| > 0 && !IsSpace(pre[0]) && Avoids(pre, '(') by {
      assert pre[0] == x[0] && !IsSpace(x[0]);
      assert Avoids("/../", '(');
      AvoidsPrefixed(x, "/../", '(');
    }
    assert Strip(pre + y) == pre + y && NameOf(Strip(pre + y)) == pre + y by {
      PrefixedName(pre, y);
    }
    assert Contains(pre + y, "/") by {
      SlashContained(pre + y, |x|);
    }
    Regroup(pre, y, ".yaml");
  }

  /** `games.d/<x>/../<f>` is `games.d/<f>`, read as text. */
  lemma ResolveDetour(root: Path, x: string, f: string)
    requires NoUp(root) && x != ".." && f != ".."
    ensures Resolved(GamesDir(root) + [x, "..", f]) == GamesDir(root) + [f]
  {
    var g := GamesDir(root);
    GamesDirNoUp(root);
    ResolveAppend([], g, [x, "..", f]);
    assert [x, "..", f][1..] == ["..", f] && ["..", f][1..] == [f];
    assert ResolveFrom(g, [x, "..", f]) == ResolveFrom(g + [x], ["..", f]);
    assert Parent(g + [x]) == g;
    assert ResolveFrom(g + [x], ["..", f]) == ResolveFrom(g, [f]);
    assert ResolveFrom(g, [f]) == ResolveFrom(g + [f], []);
  }

  /** Where `<x>/../<y>` leads, read as text. */
  lemma DetourTarget(x: string, y: string, root: Path)
    requires NoUp(root)
    requires x != "" && x != "." && x != ".." && Strip(x) == x && Avoids(x, '/') && Avoids(x, '(')
    requires y != "" && Strip(y) == y && Avoids(y, '/') && Avoids(y, '(')
    ensures Strip(x + "/../" + y) != "" && Contains(x + "/../" + y, "/")
    ensures Joined(root, x + "/../" + y) == GamesDir(root) + [x, "..", y + ".yaml"]
    ensures Target(root, x + "/../" + y) == GamesDir(root) + [y + ".yaml"]
  {
    DetourName(x, y);
    var xy := y + ".yaml";
    YamlAvoids(y, '/');
    assert xy[|xy| - 5] == '.';
    PartsOfDetour(x, xy);
    assert (x + "/../" + xy)[0] == x[0] != '/';
    ResolveDetour(root, x, xy);
  }

  /** The combo text `<x>/../<y>` steps up out of `games.d/<x>`: the system
      opens the file only when that directory exists, and then writes
      `games.d/<y>.yaml`; otherwise the open fails and the save is refused.
      The corrected save stores nothing either way. */
  lemma DetourNeedsDirectory(x: string, y: string, text: string, root: Path, isDir: Path -> bool,
                             creatable: Path -> bool, profiles: map<string, string>)
    requires NoUp(root)
    requires x != "" && x != "." && x != ".." && Strip(x) == x && Avoids(x, '/') && Avoids(x, '(')
    requires y != "" && Strip(y) == y && Avoids(y, '/') && Avoids(y, '(')
    ensures SaveAsWritten(x + "/../" + y, text, true, root, isDir, creatable)
      == if isDir(GamesDir(root) + [x]) then Wrote(GamesDir(root) + [y + ".yaml"], text) else Refused
    ensures SaveGameProfile(x + "/../" + y, text, true, profiles) == profiles
  {
    DetourTarget(x, y, root);
    var g := GamesDir(root);
    var xy := y + ".yaml";
    GamesDirNoUp(root);
    UpsExistAppend(root, isDir, [], g, [x, "..", xy]);
    UpsExistPlain(root, isDir, [], g);
    assert ResolveFrom([], g) == g;
    assert [x, "..", xy][1..] == ["..", xy] && ["..", xy][1..] == [xy];
    assert OnDisk(root, isDir, g + [x]) <==> isDir(g + [x]);
    UpsExistPlain(root, isDir, g, [xy]);
    assert Parent(g + [x]) == g;
    assert Parent(g + [xy]) == g;
  }
}
