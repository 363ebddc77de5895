/** `LogFilter` of `control_center.py`: the log viewer hides a journal line
    once `limit` lines with the same core have been shown, the core being
    the line without its leading `Mon DD HH:MM:SS` stamp, with every
    bracketed process id emptied to `[]`, and stripped. */
module LogFilter {
  import opened Wrappers
  import opened PyText

  // ---------------------------------------------------------------------
  // The message core

  predicate IsUpperAscii(c: char) {
    'A' <= c <= 'Z'
  }

  predicate IsLowerAscii(c: char) {
    'a' <= c <= 'z'
  }

  /** `\d{2}:\d{2}:\d{2}` matches at index `i` of `m`. */
  predicate ClockAt(m: string, i: nat) {
    && i + 8 <= |m|
    && IsDigit(m[i]) && IsDigit(m[i + 1]) && m[i + 2] == ':'
    && IsDigit(m[i + 3]) && IsDigit(m[i + 4]) && m[i + 5] == ':'
    && IsDigit(m[i + 6]) && IsDigit(m[i + 7])
  }

  /** `[A-Z][a-z]{2}` at the start of `m`. */
  predicate MonthAt(m: string) {
    |m| >= 3 && IsUpperAscii(m[0]) && IsLowerAscii(m[1]) && IsLowerAscii(m[2])
  }

  /** The length of the match of `^[A-Z][a-z]{2}\s+\d+\s+\d{2}:\d{2}:\d{2}`
      at the start of `m`, if it matches. Whitespace and digits are
      disjoint, so each greedy run is forced and the match is unique. */
  function StampLen(m: string): (n: Option<nat>)
    ensures n.Some? ==> n.value <= |m|
  {
    if !MonthAt(m) then None
    else
      var a := RunFrom(m, 3, Space);
      var b := RunFrom(m, a, Digit);
      var c := RunFrom(m, b, Space);
      if a > 3 && b > a && c > b && ClockAt(m, c) then Some(c + 8) else None
  }

  /** The first `re.sub`: the message without its leading stamp. */
  function StampSub(m: string): (r: string)
    ensures |r| <= |m|
  {
    match StampLen(m)
    case Some(n) => m[n..]
    case None => m
  }

  /** One step of the second `re.sub` at index `i`: a `[<digits>]` there
      becomes `[]`, any other character is copied. The index the next step
      starts from comes first. */
  function PidStep(s: string, i: nat): (r: (nat, string))
    requires i < |s|
    ensures i < r.0 <= |s|
  {
    if s[i] == '[' then
      var j := RunFrom(s, i + 1, Digit);
      if j > i + 1 && j < |s| && s[j] == ']' then (j + 1, "[]") else (i + 1, [s[i]])
    else (i + 1, [s[i]])
  }

  /** The second `re.sub` from index `i` on: every `[<digits>]`, left to
      right, becomes `[]`. */
  function PidFrom(s: string, i: nat): string
    requires i <= |s|
    decreases |s| - i
  {
    if i == |s| then ""
    else
      var step := PidStep(s, i);
      step.1 + PidFrom(s, step.0)
  }

  function PidSub(s: string): string {
    PidFrom(s, 0)
  }

  /** The key `is_redundant` counts under. */
  function Core(message: string): string {
    Strip(PidSub(StampSub(message)))
  }

  /** The pieces of a syslog stamp such as `Feb 20 11:11:53`. */
  predicate IsStamp(mon: string, gap1: string, day: string, gap2: string, clock: string) {
    && |mon| == 3 && IsUpperAscii(mon[0]) && IsLowerAscii(mon[1]) && IsLowerAscii(mon[2])
    && |gap1| > 0 && (forall i :: 0 <= i < |gap1| ==> IsSpace(gap1[i]))
    && IsDigits(day)
    && |gap2| > 0 && (forall i :: 0 <= i < |gap2| ==> IsSpace(gap2[i]))
    && |clock| == 8 && ClockAt(clock, 0)
  }

  lemma DigitsAreNotSpace(c: char)
    requires IsDigit(c)
    ensures !IsSpace(c)
  {
  }

  /** A stamp laid out in `m` piece by piece, with its runs ending at `a`,
      `b` and `c`, is matched up to the end of its clock. */
  lemma StampFromPieces(m: string, mon: string, gap1: string, day: string, gap2: string, clock: string,
                        a: nat, b: nat, c: nat)
    requires IsStamp(mon, gap1, day, gap2, clock)
    requires a == 3 + |gap1| && b == a + |day| && c == b + |gap2| && c + 8 <= |m|
    requires m[..3] == mon && m[3..a] == gap1 && m[a..b] == day && m[b..c] == gap2 && m[c..c + 8] == clock
    ensures StampLen(m) == Some(c + 8)
  {
    assert MonthAt(m) by {
      assert m[0] == mon[0] && m[1] == mon[1] && m[2] == mon[2];
    }
    assert RunFrom(m, 3, Space) == a by {
      assert m[a] == m[a..b][0];
      DigitsAreNotSpace(day[0]);
      RunOverPiece(m, 3, gap1, Space);
    }
    assert RunFrom(m, a, Digit) == b by {
      assert m[b] == m[b..c][0];
      RunOverPiece(m, a, day, Digit);
    }
    assert RunFrom(m, b, Space) == c by {
      assert m[c] == m[c..c + 8][0];
      DigitsAreNotSpace(clock[0]);
      RunOverPiece(m, b, gap2, Space);
    }
    ClockAtPiece(m, c, clock);
  }

  /** A clock read off a piece of `m` is a clock in `m`. */
  lemma ClockAtPiece(m: string, c: nat, clock: string)
    requires c + 8 <= |m| && m[c..c + 8] == clock && |clock| == 8 && ClockAt(clock, 0)
    ensures ClockAt(m, c)
  {
    assert m[c] == clock[0] && m[c + 1] == clock[1] && m[c + 2] == clock[2] && m[c + 3] == clock[3];
    assert m[c + 4] == clock[4] && m[c + 5] == clock[5] && m[c + 6] == clock[6] && m[c + 7] == clock[7];
  }

  /** Any stamp at the start of a message is recognised in full, whatever
      follows it. */
  lemma StampRecognised(mon: string, gap1: string, day: string, gap2: string, clock: string, rest: string)
    requires IsStamp(mon, gap1, day, gap2, clock)
    ensures StampLen(mon + gap1 + day + gap2 + clock + rest) == Some(|mon| + |gap1| + |day| + |gap2| + 8)
  {
    var m := mon + gap1 + day + gap2 + clock + rest;
    var a := 3 + |gap1|;
    var b := a + |day|;
    var c := b + |gap2|;
    assert m[..3] == mon && m[3..a] == gap1 && m[a..b] == day && m[b..c] == gap2 && m[c..c + 8] == clock;
    StampFromPieces(m, mon, gap1, day, gap2, clock, a, b, c);
  }

  /** A message that starts with a stamp loses exactly the stamp. */
  lemma StampRemoved(mon: string, gap1: string, day: string, gap2: string, clock: string, rest: string)
    requires IsStamp(mon, gap1, day, gap2, clock)
    ensures StampSub(mon + gap1 + day + gap2 + clock + rest) == rest
  {
    StampRecognised(mon, gap1, day, gap2, clock, rest);
    var m := mon + gap1 + day + gap2 + clock + rest;
    assert m[|m| - |rest|..] == rest;
  }

  /** Two messages that differ only in their leading stamps share a core. */
  lemma StampsShareCore(mon1: string, gap11: string, day1: string, gap21: string, clock1: string,
                        mon2: string, gap12: string, day2: string, gap22: string, clock2: string, rest: string)
    requires IsStamp(mon1, gap11, day1, gap21, clock1) && IsStamp(mon2, gap12, day2, gap22, clock2)
    ensures Core(mon1 + gap11 + day1 + gap21 + clock1 + rest) == Core(mon2 + gap12 + day2 + gap22 + clock2 + rest)
  {
    StampRemoved(mon1, gap11, day1, gap21, clock1, rest);
    StampRemoved(mon2, gap12, day2, gap22, clock2, rest);
  }

  /** A step past a prefix `x` is the same step in what follows `x`. */
  lemma PidStepShift(x: string, t: string, k: nat)
    requires k < |t|
    ensures PidStep(x + t, |x| + k) == (|x| + PidStep(t, k).0, PidStep(t, k).1)
  {
    var s := x + t;
    assert s[|x| + k] == t[k];
    if t[k] == '[' {
      RunFromShift(x, t, k + 1, Digit);
      var jt := RunFrom(t, k + 1, Digit);
      if jt < |t| {
        assert s[|x| + jt] == t[jt];
      }
    }
  }

  /** A step inside `x` is the same step in `x + t` when `t` starts with
      `[`: no digit run crosses into `t`. */
  lemma PidStepPrefix(x: string, t: string, i: nat)
    requires i < |x| && |t| > 0 && t[0] == '['
    ensures PidStep(x + t, i) == PidStep(x, i)
  {
    var s := x + t;
    assert s[i] == x[i];
    if x[i] == '[' {
      RunFromPrefix(x, t, i + 1, Digit);
      var jx := RunFrom(x, i + 1, Digit);
      if jx < |x| {
        assert s[jx] == x[jx];
      } else {
        assert s[jx] == t[0];
      }
    }
  }

  /** Rewriting `x + t` from inside `x`, when `t` starts with `[`, rewrites
      the rest of `x` and then `t` on its own: no match runs across the
      `[`. */
  lemma {:induction false} PidAppend(x: string, t: string, i: nat)
    requires i <= |x| && |t| > 0 && t[0] == '['
    ensures PidFrom(x + t, i) == PidFrom(x, i) + PidFrom(t, 0)
    decreases |x| - i
  {
    if i == |x| {
      PidShift(x, t, 0);
    } else {
      var step := PidStep(x, i);
      PidStepPrefix(x, t, i);
      assert PidFrom(x, i) == step.1 + PidFrom(x, step.0);
      assert PidFrom(x + t, i) == step.1 + PidFrom(x + t, step.0);
      PidAppend(x, t, step.0);
    }
  }

  /** Rewriting `x + t` past the end of `x` is rewriting `t`. */
  lemma {:induction false} PidShift(x: string, t: string, k: nat)
    requires k <= |t|
    ensures PidFrom(x + t, |x| + k) == PidFrom(t, k)
    decreases |t| - k
  {
    var s := x + t;
    if k < |t| {
      var step := PidStep(t, k);
      PidStepShift(x, t, k);
      assert PidFrom(t, k) == step.1 + PidFrom(t, step.0);
      assert PidFrom(s, |x| + k) == step.1 + PidFrom(s, |x| + step.0);
      PidShift(x, t, step.0);
    } else {
      assert |x| + k == |s|;
    }
  }

  /** A bracketed number at the start is emptied. */
  lemma PidChunk(d: string, y: string)
    requires IsDigits(d)
    ensures PidSub("[" + d + "]" + y) == "[]" + PidSub(y)
  {
    var pre := "[" + d + "]";
    var t := pre + y;
    assert RunFrom(t, 1, Digit) == |d| + 1 by {
      assert forall k :: 1 <= k < |d| + 1 ==> t[k] == d[k - 1];
      assert t[|d| + 1] == ']';
      RunFromExact(t, 1, |d| + 1, Digit);
    }
    assert t[|d| + 1] == ']';
    assert PidFrom(t, |pre|) == PidFrom(y, 0) by {
      PidShift(pre, y, 0);
    }
  }

  /** A bracketed number is emptied wherever it sits, and the text around
      it is rewritten as if it stood alone. */
  lemma PidSplit(x: string, d: string, y: string)
    requires IsDigits(d)
    ensures PidSub(x + "[" + d + "]" + y) == PidSub(x) + "[]" + PidSub(y)
  {
    var t := "[" + d + "]" + y;
    assert x + "[" + d + "]" + y == x + t;
    PidAppend(x, t, 0);
    PidChunk(d, y);
  }

  /** The month matches in `x + t` exactly when it matches in `x`, when
      `t` starts with `[`. */
  lemma MonthBeforeBracket(x: string, t: string)
    requires |t| > 0 && t[0] == '['
    ensures MonthAt(x + t) == MonthAt(x)
  {
    var m := x + t;
    assert m[|x|] == '[';
    if |x| >= 3 {
      assert m[0] == x[0] && m[1] == x[1] && m[2] == x[2];
    }
  }

  /** A clock matches at `c` in `x + t` exactly when it matches in `x`,
      when `t` starts with `[`: a `[` is neither a digit nor a colon. */
  lemma ClockBeforeBracket(x: string, t: string, c: nat)
    requires |t| > 0 && t[0] == '[' && c <= |x|
    ensures ClockAt(x + t, c) == ClockAt(x, c)
  {
    var m := x + t;
    if c + 8 <= |x| {
      assert forall k :: c <= k < c + 8 ==> m[k] == x[k];
    } else if c + 8 <= |m| {
      var k := |x| - c;
      assert m[c + k] == '[';
      assert !IsDigit(m[c + k]) && m[c + k] != ':';
    }
  }

  /** A `[` ends every part of the stamp pattern, so what follows one
      cannot change whether, or how far, the stamp matches. */
  lemma StampLenBeforeBracket(x: string, t: string)
    requires |t| > 0 && t[0] == '['
    ensures StampLen(x + t) == StampLen(x)
  {
    MonthBeforeBracket(x, t);
    if MonthAt(x) {
      RunFromPrefix(x, t, 3, Space);
      var a := RunFrom(x, 3, Space);
      RunFromPrefix(x, t, a, Digit);
      var b := RunFrom(x, a, Digit);
      RunFromPrefix(x, t, b, Space);
      var c := RunFrom(x, b, Space);
      ClockBeforeBracket(x, t, c);
    }
  }

  /** Removing the stamp from `x + t`, when `t` starts with `[`, removes it
      from `x` alone. */
  lemma StampSubBeforeBracket(x: string, t: string)
    requires |t| > 0 && t[0] == '['
    ensures StampSub(x + t) == StampSub(x) + t
  {
    StampLenBeforeBracket(x, t);
    match StampLen(x) {
      case None =>
        assert StampSub(x + t) == x + t;
      case Some(n) =>
        assert StampSub(x + t) == (x + t)[n..];
        assert StampSub(x) == x[n..];
        assert (x + t)[n..] == x[n..] + t;
    }
  }

  /** The core of a message with a bracketed number in it, in terms of the
      text on either side of the brackets. */
  lemma CoreAroundPid(x: string, d: string, y: string)
    requires IsDigits(d)
    ensures Core(x + "[" + d + "]" + y) == Strip(PidSub(StampSub(x)) + "[]" + PidSub(y))
  {
    var t := "[" + d + "]" + y;
    var x' := StampSub(x);
    assert x + "[" + d + "]" + y == x + t;
    assert x' + t == x' + "[" + d + "]" + y;
    assert PidSub(StampSub(x + t)) == PidSub(x') + "[]" + PidSub(y) by {
      StampSubBeforeBracket(x, t);
      PidSplit(x', d, y);
    }
  }

  /** Messages that differ only in the number inside one pair of brackets
      share a core, whether or not they carry a stamp. */
  lemma PidsShareCore(x: string, d1: string, d2: string, y: string)
    requires IsDigits(d1) && IsDigits(d2)
    ensures Core(x + "[" + d1 + "]" + y) == Core(x + "[" + d2 + "]" + y)
  {
    CoreAroundPid(x, d1, y);
    CoreAroundPid(x, d2, y);
  }

  // ---------------------------------------------------------------------
  // The counter

  /** `LogFilter`: the repetition limit and the count per core. */
  datatype LogFilter = LogFilter(limit: int, history: map<string, int>)

  /** `LogFilter()`: the control centre builds its filter with the default. */
  const DefaultLimit := 2

  function NewFilter(limit: int): (f: LogFilter)
    ensures f.limit == limit && f.history == map[]
  {
    LogFilter(limit, map[])
  }

  /** `history.get(core, 0)`. */
  function Count(f: LogFilter, core: string): int {
    if core in f.history then f.history[core] else 0
  }

  /** `is_redundant(message)`: the filter after the call and the verdict. */
  function Check(f: LogFilter, message: string): (r: (LogFilter, bool))
    ensures r.0.limit == f.limit
  {
    var core := Core(message);
    var count := Count(f, core);
    if count < f.limit then (f.(history := f.history[core := count + 1]), false)
    else (f, true)
  }

  /** `reset()`. */
  function Reset(f: LogFilter): (g: LogFilter)
    ensures g.limit == f.limit
  {
    f.(history := map[])
  }

  /** The counts the filter keeps are all between 1 and the limit. */
  predicate Bounded(f: LogFilter) {
    forall k :: k in f.history ==> 1 <= f.history[k] <= f.limit
  }

  /** A fresh or reset filter is bounded, and `is_redundant` keeps it so:
      no stored count ever exceeds the limit. */
  lemma CheckKeepsBound(f: LogFilter, message: string)
    requires Bounded(f)
    ensures Bounded(Check(f, message).0) && Bounded(Reset(f)) && Bounded(NewFilter(f.limit))
  {
  }

  /** After a reset the first call on any message passes when the limit is
      at least one, and counts that message once. */
  lemma ResetThenPasses(f: LogFilter, message: string)
    requires f.limit >= 1
    ensures !Check(Reset(f), message).1
    ensures Count(Check(Reset(f), message).0, Core(message)) == 1
  {
  }

  /** A call only ever touches the count of its own message's core. */
  lemma CheckIsolated(f: LogFilter, message: string, other: string)
    requires other != Core(message)
    ensures Count(Check(f, message).0, other) == Count(f, other)
  {
  }

  /** The filter after a list of calls, in order. */
  function Run(f: LogFilter, ms: seq<string>): (g: LogFilter)
    ensures g.limit == f.limit
    decreases |ms|
  {
    if |ms| == 0 then f else Check(Run(f, ms[..|ms| - 1]), ms[|ms| - 1]).0
  }

  /** How many of `ms` have core `c`. */
  function Occ(ms: seq<string>, c: string): nat
    decreases |ms|
  {
    if |ms| == 0 then 0
    else Occ(ms[..|ms| - 1], c) + (if Core(ms[|ms| - 1]) == c then 1 else 0)
  }

  /** A count below the limit grows by each message with its core until it
      reaches the limit, where it stays. */
  function Saturate(start: int, n: nat, limit: int): int {
    if start >= limit then start
    else if start + n < limit then start + n else limit
  }

  lemma {:induction false} RunCount(f: LogFilter, ms: seq<string>, c: string)
    ensures Count(Run(f, ms), c) == Saturate(Count(f, c), Occ(ms, c), f.limit)
    decreases |ms|
  {
    if |ms| > 0 {
      var init := ms[..|ms| - 1];
      var last := ms[|ms| - 1];
      var g := Run(f, init);
      RunCount(f, init, c);
      assert Run(f, ms) == Check(g, last).0;
      assert Occ(ms, c) == Occ(init, c) + (if Core(last) == c then 1 else 0);
      if Core(last) == c {
        assert Count(Check(g, last).0, c) == if Count(g, c) < f.limit then Count(g, c) + 1 else Count(g, c);
      } else {
        CheckIsolated(g, last, c);
      }
    }
  }

  /** Which call on a repeated message is hidden: the one at position `i`
      is redundant exactly when the count the filter started with plus the
      earlier messages with the same core reach the limit. From a fresh or
      reset filter, the first `limit` messages of each core pass and every
      later one is hidden. */
  lemma Verdict(f: LogFilter, ms: seq<string>, i: nat)
    requires i < |ms|
    ensures Check(Run(f, ms[..i]), ms[i]).1 <==> Count(f, Core(ms[i])) + Occ(ms[..i], Core(ms[i])) >= f.limit
  {
    RunCount(f, ms[..i], Core(ms[i]));
  }

  /** The lines `load_logs` shows from `ms`, in order. */
  function Kept(f: LogFilter, ms: seq<string>): seq<string>
    decreases |ms|
  {
    if |ms| == 0 then []
    else
      var init := ms[..|ms| - 1];
      var last := ms[|ms| - 1];
      Kept(f, init) + (if Check(Run(f, init), last).1 then [] else [last])
  }

  /** Every shown line with core `c` is counted once. */
  lemma {:induction false} KeptCounted(f: LogFilter, ms: seq<string>, c: string)
    ensures Count(Run(f, ms), c) == Count(f, c) + Occ(Kept(f, ms), c)
    decreases |ms|
  {
    if |ms| > 0 {
      var init := ms[..|ms| - 1];
      var last := ms[|ms| - 1];
      var g := Run(f, init);
      KeptCounted(f, init, c);
      var extra: seq<string> := if Check(g, last).1 then [] else [last];
      assert Run(f, ms) == Check(g, last).0;
      assert Kept(f, ms) == Kept(f, init) + extra;
      OccAppend(Kept(f, init), extra, c);
      CheckCounts(g, last, c);
      OccSingle(last, c);
    }
  }

  /** One call adds one to the count of `c` exactly when it shows a line
      with core `c`. */
  lemma CheckCounts(g: LogFilter, last: string, c: string)
    ensures Count(Check(g, last).0, c) == Count(g, c) + (if !Check(g, last).1 && Core(last) == c then 1 else 0)
  {
    if Core(last) != c {
      CheckIsolated(g, last, c);
    }
  }

  lemma OccSingle(x: string, c: string)
    ensures Occ([], c) == 0
    ensures Occ([x], c) == if Core(x) == c then 1 else 0
  {
    assert [x][..0] == [];
  }

  lemma {:induction false} OccAppend(a: seq<string>, b: seq<string>, c: string)
    ensures Occ(a + b, c) == Occ(a, c) + Occ(b, c)
    decreases |b|
  {
    if |b| == 0 {
      assert a + b == a;
    } else {
      assert (a + b)[..|a + b| - 1] == a + b[..|b| - 1];
      OccAppend(a, b[..|b| - 1], c);
    }
  }

  /** A refresh, which starts from a reset filter, shows at most `limit`
      lines with any one core. */
  lemma RefreshShowsAtMostLimit(f: LogFilter, ms: seq<string>, c: string)
    requires f.limit >= 0
    ensures Occ(Kept(Reset(f), ms), c) <= f.limit
  {
    KeptCounted(Reset(f), ms, c);
    RunCount(Reset(f), ms, c);
  }

  /** One more line: the filter takes one more call, and the line is shown
      when that call does not find it redundant. */
  lemma RunKeptStep(f: LogFilter, ms: seq<string>, i: nat)
    requires i < |ms|
    ensures Run(f, ms[..i + 1]) == Check(Run(f, ms[..i]), ms[i]).0
    ensures Kept(f, ms[..i + 1]) == Kept(f, ms[..i]) + (if Check(Run(f, ms[..i]), ms[i]).1 then [] else [ms[i]])
  {
    assert ms[..i + 1][..i] == ms[..i];
  }

  /** The loop of `load_logs` over the journal lines, after its `reset()`. */
  method ShowLines(f: LogFilter, lines: seq<string>) returns (g: LogFilter, shown: seq<string>)
    ensures g == Run(Reset(f), lines)
    ensures shown == Kept(Reset(f), lines)
  {
    g := Reset(f);
    shown := [];
    for i := 0 to |lines|
      invariant g == Run(Reset(f), lines[..i])
      invariant shown == Kept(Reset(f), lines[..i])
    {
      RunKeptStep(Reset(f), lines, i);
      var r := Check(g, lines[i]);
      g := r.0;
      if !r.1 {
        shown := shown + [lines[i]];
      }
    }
    assert lines[..|lines|] == lines;
  }
}
