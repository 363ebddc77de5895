/** Python's ordering of `str` values (code point by code point, a proper
    prefix first) and `sorted()` over a list of strings. */
module Sorting {

  /** `a <= b` on Python strings. */
  predicate LexLe(a: string, b: string)
    decreases |a|
  {
    |a| == 0 || (|b| > 0 && (a[0] < b[0] || (a[0] == b[0] && LexLe(a[1..], b[1..]))))
  }

  lemma {:induction false} LexLeTotal(a: string, b: string)
    ensures LexLe(a, b) || LexLe(b, a)
    decreases |a|
  {
    if |a| > 0 && |b| > 0 && a[0] == b[0] {
      LexLeTotal(a[1..], b[1..]);
    }
  }

  lemma {:induction false} LexLeAntisymmetric(a: string, b: string)
    requires LexLe(a, b) && LexLe(b, a)
    ensures a == b
    decreases |a|
  {
    if |a| > 0 {
      LexLeAntisymmetric(a[1..], b[1..]);
      assert a == [a[0]] + a[1..] && b == [b[0]] + b[1..];
    }
  }

  lemma {:induction false} LexLeTransitive(a: string, b: string, c: string)
    requires LexLe(a, b) && LexLe(b, c)
    ensures LexLe(a, c)
    decreases |a|
  {
    if |a| > 0 && a[0] == b[0] && b[0] == c[0] {
      LexLeTransitive(a[1..], b[1..], c[1..]);
    }
  }

  predicate Sorted(s: seq<string>) {
    forall i, j :: 0 <= i < j < |s| ==> LexLe(s[i], s[j])
  }

  /** A string below every element of a sorted list can head it. */
  lemma ConsSorted(h: string, t: seq<string>)
    requires Sorted(t) && forall k :: 0 <= k < |t| ==> LexLe(h, t[k])
    ensures Sorted([h] + t)
  {
    var r := [h] + t;
    forall i, j | 0 <= i < j < |r| ensures LexLe(r[i], r[j]) {
      assert r[j] == t[j - 1];
      if i > 0 {
        assert r[i] == t[i - 1];
      }
    }
  }

  /** A string below `x` and below every element of `rest` is below every
      element of any rearrangement of `rest` and `x`. */
  lemma BelowAll(h: string, x: string, rest: seq<string>, t: seq<string>)
    requires LexLe(h, x) && forall k :: 0 <= k < |rest| ==> LexLe(h, rest[k])
    requires multiset(t) == multiset(rest) + multiset{x}
    ensures forall k :: 0 <= k < |t| ==> LexLe(h, t[k])
  {
    forall k | 0 <= k < |t| ensures LexLe(h, t[k]) {
      var y := t[k];
      assert y in multiset(t);
      if y != x {
        assert y in multiset(rest);
        var m :| 0 <= m < |rest| && rest[m] == y;
      }
    }
  }

  /** Inserts `x` into a sorted list after every element smaller than it. */
  function Insert(x: string, s: seq<string>): (r: seq<string>)
    requires Sorted(s)
    ensures Sorted(r)
    ensures multiset(r) == multiset(s) + multiset{x}
    decreases |s|
  {
    if |s| == 0 then [x]
    else if LexLe(x, s[0]) then
      assert Sorted([x] + s) by {
        forall j | 0 <= j < |s| ensures LexLe(x, s[j]) {
          if j > 0 {
            LexLeTransitive(x, s[0], s[j]);
          }
        }
        ConsSorted(x, s);
      }
      [x] + s
    else
      var t := Insert(x, s[1..]);
      assert Sorted([s[0]] + t) by {
        LexLeTotal(x, s[0]);
        assert forall k :: 0 <= k < |s[1..]| ==> LexLe(s[0], s[1..][k]) by {
          assert forall k :: 0 <= k < |s[1..]| ==> s[1..][k] == s[k + 1];
        }
        BelowAll(s[0], x, s[1..], t);
        ConsSorted(s[0], t);
      }
      assert s == [s[0]] + s[1..];
      [s[0]] + t
  }

  /** Python's `sorted(items)` for a list of strings. */
  function Sort(s: seq<string>): (r: seq<string>)
    ensures Sorted(r)
    ensures multiset(r) == multiset(s)
    decreases |s|
  {
    if |s| == 0 then []
    else
      assert s == [s[0]] + s[1..];
      Insert(s[0], Sort(s[1..]))
  }

  /** The head of a sorted list is below every element. */
  lemma SortedHeadMin(a: seq<string>, y: string)
    requires Sorted(a) && y in multiset(a)
    ensures LexLe(a[0], y)
  {
    var i :| 0 <= i < |a| && a[i] == y;
    if i == 0 {
      LexLeTotal(y, y);
    }
  }

  lemma MultisetTail(a: seq<string>)
    requires |a| > 0
    ensures multiset(a[1..]) == multiset(a) - multiset{a[0]}
  {
    assert a == [a[0]] + a[1..];
  }

  /** The tail of a sorted list is sorted. */
  lemma SortedTail(a: seq<string>)
    requires Sorted(a) && |a| > 0
    ensures Sorted(a[1..])
  {
    assert forall k :: 0 <= k < |a| - 1 ==> a[1..][k] == a[k + 1];
  }

  /** Two sorted lists holding the same strings are equal: the result of
      `sorted()` does not depend on the order of its input. */
  lemma {:induction false} SortedUnique(a: seq<string>, b: seq<string>)
    requires Sorted(a) && Sorted(b)
    requires multiset(a) == multiset(b)
    ensures a == b
    decreases |a|
  {
    if |a| > 0 {
      assert |b| == |multiset(b)| == |multiset(a)| == |a|;
      assert a[0] == b[0] by {
        assert a[0] in multiset(a) && b[0] in multiset(b);
        SortedHeadMin(a, b[0]);
        SortedHeadMin(b, a[0]);
        LexLeAntisymmetric(a[0], b[0]);
      }
      assert multiset(a[1..]) == multiset(b[1..]) by {
        MultisetTail(a);
        MultisetTail(b);
      }
      SortedTail(a);
      SortedTail(b);
      SortedUnique(a[1..], b[1..]);
      assert a == [a[0]] + a[1..] && b == [b[0]] + b[1..];
    }
  }

  /** Sorting any rearrangement of a list gives the same list. */
  lemma SortPermutationInvariant(a: seq<string>, b: seq<string>)
    requires multiset(a) == multiset(b)
    ensures Sort(a) == Sort(b)
  {
    SortedUnique(Sort(a), Sort(b));
  }
}
