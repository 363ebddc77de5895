/** The handful of Python string operations the session switcher relies on
    (`strip`, `lower`, `in`, `split(sep, 1)`, `replace`, `isdigit`, line
    iteration over a text file), written out over `string == seq<char>`. */
module PyText {
  import opened Wrappers

  /** The characters for which Python's `str.isspace()` holds; `str.strip()`
      without arguments and the regular-expression class `\s` both use it. */
  predicate IsSpace(c: char) {
    || c == '\t' || c == '\n' || c == '\U{B}' || c == '\U{C}' || c == '\r'
    || ('\U{1C}' <= c <= '\U{1F}') || c == ' ' || c == '\U{85}' || c == '\U{A0}'
    || c == '\U{1680}' || ('\U{2000}' <= c <= '\U{200A}')
    || c == '\U{2028}' || c == '\U{2029}' || c == '\U{202F}' || c == '\U{205F}' || c == '\U{3000}'
  }

  /** Decimal digits (the ASCII subset of `\d` and of `str.isdigit()`). */
  predicate IsDigit(c: char) {
    '0' <= c <= '9'
  }

  /** The character sets the repository strips or scans over. */
  datatype CharClass = Space | Digit | Only(ch: char) | AllBut(ch: char)

  predicate In(c: char, cls: CharClass) {
    match cls
    case Space => IsSpace(c)
    case Digit => IsDigit(c)
    case Only(d) => c == d
    case AllBut(d) => c != d
  }

  /** `s.lstrip(chars)`: drops the longest prefix drawn from `cls`. */
  function TrimLeft(s: string, cls: CharClass): (r: string)
    ensures |r| <= |s| && r == s[|s| - |r|..]
    ensures forall i :: 0 <= i < |s| - |r| ==> In(s[i], cls)
    ensures |r| > 0 ==> !In(r[0], cls)
    decreases |s|
  {
    if |s| > 0 && In(s[0], cls) then TrimLeft(s[1..], cls) else s
  }

  /** Length of the longest prefix of `s` drawn from `cls`: what a greedy
      `[cls]*` consumes at the start of `s`. */
  function Lead(s: string, cls: CharClass): (n: nat)
    ensures n <= |s|
    ensures forall i :: 0 <= i < n ==> In(s[i], cls)
    ensures n < |s| ==> !In(s[n], cls)
  {
    |s| - |TrimLeft(s, cls)|
  }

  /** Where the greedy run of `cls` that starts at index `i` of `m` ends. */
  function RunFrom(m: string, i: nat, cls: CharClass): (j: nat)
    requires i <= |m|
    ensures i <= j <= |m|
    ensures forall k :: i <= k < j ==> In(m[k], cls)
    ensures j < |m| ==> !In(m[j], cls)
    decreases |m| - i
  {
    if i < |m| && In(m[i], cls) then RunFrom(m, i + 1, cls) else i
  }

  /** A run is determined by where it starts: whatever ends it is where it
      ends. */
  lemma RunFromExact(m: string, i: nat, j: nat, cls: CharClass)
    requires i <= j <= |m|
    requires forall k :: i <= k < j ==> In(m[k], cls)
    requires j < |m| ==> !In(m[j], cls)
    ensures RunFrom(m, i, cls) == j
  {
  }

  /** A run starting at a piece `p` of `m` drawn from `cls` ends right
      after it when the next character is outside `cls`. */
  lemma RunOverPiece(m: string, i: nat, p: string, cls: CharClass)
    requires i + |p| <= |m| && m[i..i + |p|] == p
    requires forall k :: 0 <= k < |p| ==> In(p[k], cls)
    requires i + |p| < |m| ==> !In(m[i + |p|], cls)
    ensures RunFrom(m, i, cls) == i + |p|
  {
    forall k | i <= k < i + |p|
      ensures In(m[k], cls)
    {
      assert m[k] == m[i..i + |p|][k - i];
    }
    RunFromExact(m, i, i + |p|, cls);
  }

  /** A run past a prefix `x` is the same run in what follows `x`. */
  lemma RunFromShift(x: string, t: string, k: nat, cls: CharClass)
    requires k <= |t|
    ensures RunFrom(x + t, |x| + k, cls) == |x| + RunFrom(t, k, cls)
  {
    var s := x + t;
    var j := RunFrom(t, k, cls);
    forall n | |x| + k <= n < |x| + j
      ensures In(s[n], cls)
    {
      assert s[n] == t[n - |x|];
    }
    if |x| + j < |s| {
      assert s[|x| + j] == t[j];
    }
    RunFromExact(s, |x| + k, |x| + j, cls);
  }

  /** A run inside `x` ends where it ends in `x + t`, unless it reaches the
      end of `x` and `t` continues it. */
  lemma RunFromPrefix(x: string, t: string, i: nat, cls: CharClass)
    requires i <= |x|
    requires RunFrom(x, i, cls) == |x| && |t| > 0 ==> !In(t[0], cls)
    ensures RunFrom(x + t, i, cls) == RunFrom(x, i, cls)
  {
    var s := x + t;
    var j := RunFrom(x, i, cls);
    forall n | i <= n < j
      ensures In(s[n], cls)
    {
      assert s[n] == x[n];
    }
    if j < |x| {
      assert s[j] == x[j];
    } else if j < |s| {
      assert s[j] == t[0];
    }
    RunFromExact(s, i, j, cls);
  }

  /** `s.rstrip(chars)`: drops the longest suffix drawn from `cls`. */
  function TrimRight(s: string, cls: CharClass): (r: string)
    ensures |r| <= |s| && r == s[..|r|]
    ensures forall i :: |r| <= i < |s| ==> In(s[i], cls)
    ensures |r| > 0 ==> !In(r[|r| - 1], cls)
    decreases |s|
  {
    if |s| > 0 && In(s[|s| - 1], cls) then TrimRight(s[..|s| - 1], cls) else s
  }

  /** `s.strip(chars)`: the infix left once every leading and trailing
      character drawn from `cls` is removed. */
  function Trim(s: string, cls: CharClass): (r: string)
    ensures |r| <= |s|
    ensures |r| > 0 ==> !In(r[0], cls) && !In(r[|r| - 1], cls)
  {
    TrimRight(TrimLeft(s, cls), cls)
  }

  /** What `strip` removes: `s` is the result with a run of characters from
      `cls` on each side, the left run being exactly `Lead(s, cls)` long. */
  lemma TrimSlice(s: string, cls: CharClass)
    ensures Lead(s, cls) + |Trim(s, cls)| <= |s|
    ensures Trim(s, cls) == s[Lead(s, cls)..Lead(s, cls) + |Trim(s, cls)|]
    ensures forall i :: 0 <= i < |s| && !(Lead(s, cls) <= i < Lead(s, cls) + |Trim(s, cls)|) ==> In(s[i], cls)
  {
  }

  lemma {:induction false} TrimLeftAppend(s: string, t: string, cls: CharClass)
    ensures TrimLeft(s, cls) != "" ==> TrimLeft(s + t, cls) == TrimLeft(s, cls) + t
    ensures TrimLeft(s, cls) == "" ==> TrimLeft(s + t, cls) == TrimLeft(t, cls)
    decreases |s|
  {
    if |s| > 0 {
      assert (s + t)[1..] == s[1..] + t;
      if In(s[0], cls) {
        TrimLeftAppend(s[1..], t, cls);
      }
    } else {
      assert s + t == t;
    }
  }

  /** Stripping the left of `pre + r` removes exactly `pre` when `pre` is
      drawn from `cls` and `r` does not start with it. */
  lemma {:induction false} TrimLeftPadded(pre: string, r: string, cls: CharClass)
    requires forall i :: 0 <= i < |pre| ==> In(pre[i], cls)
    requires |r| > 0 && !In(r[0], cls)
    ensures TrimLeft(pre + r, cls) == r
    decreases |pre|
  {
    if |pre| == 0 {
      assert pre + r == r;
    } else {
      assert (pre + r)[0] == pre[0];
      assert (pre + r)[1..] == pre[1..] + r;
      TrimLeftPadded(pre[1..], r, cls);
    }
  }

  /** Stripping the right of `w + post` removes exactly `post` when `post`
      is drawn from `cls` and `w` does not end with it. */
  lemma {:induction false} TrimRightPadded(w: string, post: string, cls: CharClass)
    requires forall i :: 0 <= i < |post| ==> In(post[i], cls)
    requires |w| > 0 && !In(w[|w| - 1], cls)
    ensures TrimRight(w + post, cls) == w
    decreases |post|
  {
    if |post| == 0 {
      assert w + post == w;
    } else {
      var s := w + post;
      assert s[|s| - 1] == post[|post| - 1];
      assert s[..|s| - 1] == w + post[..|post| - 1];
      TrimRightPadded(w, post[..|post| - 1], cls);
    }
  }

  /** Stripping removes exactly the padding around a word that neither
      starts nor ends with a character from `cls`. */
  lemma TrimPadded(pre: string, w: string, post: string, cls: CharClass)
    requires forall i :: 0 <= i < |pre| ==> In(pre[i], cls)
    requires forall i :: 0 <= i < |post| ==> In(post[i], cls)
    requires |w| > 0 && !In(w[0], cls) && !In(w[|w| - 1], cls)
    ensures Trim(pre + w + post, cls) == w
  {
    assert pre + w + post == pre + (w + post);
    TrimLeftPadded(pre, w + post, cls);
    TrimRightPadded(w, post, cls);
  }

  /** Stripping `c`, a character drawn from `cls`, from both ends first changes nothing. */
  lemma TrimPeel(c: char, s: string, cls: CharClass)
    requires In(c, cls)
    ensures Trim([c] + s + [c], cls) == Trim(s, cls)
  {
    assert [c] + s + [c] == [c] + (s + [c]);
    TrimLeftCons(c, s + [c], cls);
    TrimLeftAppend(s, [c], cls);
    if TrimLeft(s, cls) == "" {
      TrimLeftCons(c, [], cls);
      assert [c] == [c] + [];
    } else {
      TrimRightSnoc(TrimLeft(s, cls), c, cls);
    }
  }

  /** `s.strip()` with no argument. */
  function Strip(s: string): string {
    Trim(s, Space)
  }

  /** Stripping twice removes nothing more than stripping once. */
  lemma TrimIdempotent(s: string, cls: CharClass)
    ensures Trim(Trim(s, cls), cls) == Trim(s, cls)
  {
    var r := Trim(s, cls);
    assert TrimLeft(r, cls) == r;
  }

  /** A string with no boundary character from `cls` is its own trim. */
  lemma TrimOfTrimmed(s: string, cls: CharClass)
    requires |s| > 0 ==> !In(s[0], cls) && !In(s[|s| - 1], cls)
    ensures Trim(s, cls) == s
  {
  }

  lemma TrimLeftCons(c: char, s: string, cls: CharClass)
    requires In(c, cls)
    ensures TrimLeft([c] + s, cls) == TrimLeft(s, cls)
  {
    assert ([c] + s)[1..] == s;
  }

  lemma TrimRightSnoc(s: string, c: char, cls: CharClass)
    requires In(c, cls)
    ensures TrimRight(s + [c], cls) == TrimRight(s, cls)
  {
    assert (s + [c])[..|s|] == s;
  }

  /** Python's `str.lower()` on one character: ASCII letters, and KELVIN SIGN,
      the one non-ASCII character whose lower case is ASCII (`k`). */
  function LowerChar(c: char): char {
    if 'A' <= c <= 'Z' then (c as int + 32) as char
    else if c == '\U{212A}' then 'k'
    else c
  }

  function Lower(s: string): (r: string)
    ensures |r| == |s|
    ensures forall i :: 0 <= i < |s| ==> r[i] == LowerChar(s[i])
  {
    seq(|s|, i requires 0 <= i < |s| => LowerChar(s[i]))
  }

  /** Python's `str.upper()` restricted to ASCII. */
  function Upper(s: string): (r: string)
    ensures |r| == |s|
    ensures forall i :: 0 <= i < |s| ==> ('a' <= s[i] <= 'z' ==> r[i] as int == s[i] as int - 32)
    ensures forall i :: 0 <= i < |s| ==> (!('a' <= s[i] <= 'z') ==> r[i] == s[i])
  {
    seq(|s|, i requires 0 <= i < |s| => if 'a' <= s[i] <= 'z' then (s[i] as int - 32) as char else s[i])
  }

  /** `sub` occurs in `s` starting at index `i`. */
  predicate IsAt(s: string, sub: string, i: nat) {
    i + |sub| <= |s| && s[i..i + |sub|] == sub
  }

  function FindFrom(s: string, sub: string, i: nat): (r: Option<nat>)
    requires i <= |s|
    ensures r.Some? ==> i <= r.value && IsAt(s, sub, r.value)
    ensures r.Some? ==> forall j :: i <= j < r.value ==> !IsAt(s, sub, j)
    ensures r.None? ==> forall j :: i <= j ==> !IsAt(s, sub, j)
    decreases |s| - i
  {
    if IsAt(s, sub, i) then Some(i)
    else if i == |s| then None
    else FindFrom(s, sub, i + 1)
  }

  /** Python's `s.find(sub)`: the first index at which `sub` occurs. */
  function Find(s: string, sub: string): (r: Option<nat>)
    ensures r.Some? ==> IsAt(s, sub, r.value)
    ensures r.Some? ==> forall j :: 0 <= j < r.value ==> !IsAt(s, sub, j)
    ensures r.None? ==> forall j :: !IsAt(s, sub, j)
  {
    FindFrom(s, sub, 0)
  }

  /** Python's `sub in s`. */
  predicate Contains(s: string, sub: string) {
    Find(s, sub).Some?
  }

  lemma ContainsAt(s: string, sub: string, i: nat)
    requires IsAt(s, sub, i)
    ensures Contains(s, sub)
  {
  }

  /** An occurrence in a prefix is an occurrence in the whole string. */
  lemma IsAtPrefix(s: string, n: nat, sub: string, j: nat)
    requires n <= |s|
    requires IsAt(s[..n], sub, j)
    ensures IsAt(s, sub, j)
  {
    assert s[..n][j..j + |sub|] == s[j..j + |sub|];
  }

  /** Python's `s.split(sep)[0]`: the text before the first `sep`, or all of
      `s` when `sep` does not occur. */
  function Before(s: string, sep: string): (r: string)
    requires |sep| > 0
    ensures r <= s
    ensures !Contains(r, sep)
    ensures Contains(s, sep) ==> IsAt(s, sep, |r|)
    ensures !Contains(s, sep) ==> r == s
  {
    match Find(s, sep)
    case None => s
    case Some(i) =>
      var r := s[..i];
      assert !Contains(r, sep) by {
        if Contains(r, sep) {
          var j := Find(r, sep).value;
          IsAtPrefix(s, i, sep, j);
        }
      }
      r
  }

  /** The text after the first `sep`; with `Before` this is Python's
      `k, v = s.split(sep, 1)`. */
  function After(s: string, sep: string): (r: string)
    requires |sep| > 0 && Contains(s, sep)
    ensures Before(s, sep) + sep + r == s
  {
    var i := Find(s, sep).value;
    assert s == s[..i] + s[i..i + |sep|] + s[i + |sep|..];
    s[i + |sep|..]
  }

  /** Python's `str.isdigit()` (ASCII digits): non-empty and all digits. */
  predicate IsDigits(s: string) {
    |s| > 0 && forall i :: 0 <= i < |s| ==> IsDigit(s[i])
  }

  /** Python's `s.replace(pat, rep)`: every occurrence, left to right,
      without overlaps. */
  function Replace(s: string, pat: string, rep: string): (r: string)
    requires |pat| > 0
    ensures !Contains(s, pat) ==> r == s
    ensures Contains(s, pat) ==> Contains(r, rep)
    decreases |s|
  {
    match Find(s, pat)
    case None => s
    case Some(i) =>
      var r := s[..i] + rep + Replace(s[i + |pat|..], pat, rep);
      assert r[i..i + |rep|] == rep;
      ContainsAt(r, rep, i);
      r
  }

  function Concat(ls: seq<string>): string {
    if |ls| == 0 then "" else ls[0] + Concat(ls[1..])
  }

  /** The lines Python yields when iterating over a text file: each ends in
      `"\n"` except possibly the last, and none is empty. */
  function FileLines(t: string): (ls: seq<string>)
    ensures Concat(ls) == t
    ensures forall i :: 0 <= i < |ls| ==> |ls[i]| > 0 && '\n' !in ls[i][..|ls[i]| - 1]
    ensures forall i :: 0 <= i < |ls| - 1 ==> ls[i][|ls[i]| - 1] == '\n'
    decreases |t|
  {
    if |t| == 0 then []
    else match Find(t, "\n")
      case None =>
        assert '\n' !in t by {
          forall j | 0 <= j < |t| ensures t[j] != '\n' {
            assert !IsAt(t, "\n", j);
            assert t[j..j + 1] == [t[j]];
          }
        }
        [t]
      case Some(i) =>
        var head := t[..i + 1];
        assert '\n' !in head[..i] by {
          forall j | 0 <= j < i ensures t[j] != '\n' {
            assert !IsAt(t, "\n", j);
            assert t[j..j + 1] == [t[j]];
          }
        }
        assert t[i..i + 1] == "\n";
        var rest := FileLines(t[i + 1..]);
        assert t == head + t[i + 1..];
        [head] + rest
  }
}
