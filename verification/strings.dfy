/** Strings as the views use them: the order of JavaScript's default
    `Array.prototype.sort`, a sort over it, `startsWith`, and the
    first-occurrence `String.prototype.replace`. */
module Strings {
  import opened Seqs

  // ---------------------------------------------------------------------
  // Lexicographic order
  // ---------------------------------------------------------------------

  /** `a` sorts no later than `b`: `a` is a prefix of `b`, or the first
      character where they differ is smaller in `a`. */
  predicate LessEq(a: string, b: string)
    decreases |a|
  {
    |a| == 0 || (|b| > 0 && (a[0] < b[0] || (a[0] == b[0] && LessEq(a[1..], b[1..]))))
  }

  lemma {:induction false} LessEqRefl(a: string)
    ensures LessEq(a, a)
    decreases |a|
  {
    if |a| > 0 {
      LessEqRefl(a[1..]);
    }
  }

  lemma {:induction false} LessEqTotal(a: string, b: string)
    ensures LessEq(a, b) || LessEq(b, a)
    decreases |a|
  {
    if |a| > 0 && |b| > 0 && a[0] == b[0] {
      LessEqTotal(a[1..], b[1..]);
    }
  }

  lemma {:induction false} LessEqAntisym(a: string, b: string)
    requires LessEq(a, b) && LessEq(b, a)
    ensures a == b
    decreases |a|
  {
    if |a| > 0 {
      LessEqAntisym(a[1..], b[1..]);
      assert a == [a[0]] + a[1..];
      assert b == [b[0]] + b[1..];
    }
  }

  lemma {:induction false} LessEqTrans(a: string, b: string, c: string)
    requires LessEq(a, b) && LessEq(b, c)
    ensures LessEq(a, c)
    decreases |a|
  {
    if |a| > 0 && a[0] == b[0] && b[0] == c[0] {
      LessEqTrans(a[1..], b[1..], c[1..]);
    }
  }

  /** Non-decreasing in the string order. */
  predicate Sorted(s: seq<string>) {
    forall i, j :: 0 <= i < j < |s| ==> LessEq(s[i], s[j])
  }

  /** Increasing in the string order: sorted with no repeats. */
  predicate StrictlySorted(s: seq<string>) {
    Sorted(s) && NoDup(s)
  }

  // ---------------------------------------------------------------------
  // Array.prototype.sort() with no comparator
  // ---------------------------------------------------------------------

  /** `x` placed before the first element it sorts no later than. */
  function Insert(x: string, s: seq<string>): (r: seq<string>)
    requires Sorted(s)
    ensures Sorted(r)
    ensures multiset(r) == multiset(s) + multiset{x}
    ensures NoDup(s) && x !in s ==> NoDup(r)
    decreases |s|
  {
    if |s| == 0 then [x]
    else if LessEq(x, s[0]) then
      InsertBeforeHead(x, s);
      [x] + s
    else
      var r' := Insert(x, s[1..]);
      InsertAfterHead(x, s, r');
      [s[0]] + r'
  }

  lemma InsertBeforeHead(x: string, s: seq<string>)
    requires Sorted(s) && |s| > 0 && LessEq(x, s[0])
    ensures Sorted([x] + s)
    ensures multiset([x] + s) == multiset(s) + multiset{x}
    ensures NoDup(s) && x !in s ==> NoDup([x] + s)
  {
    forall j | 0 < j < |s|
      ensures LessEq(x, s[j])
    {
      LessEqTrans(x, s[0], s[j]);
    }
  }

  lemma InsertAfterHead(x: string, s: seq<string>, r': seq<string>)
    requires Sorted(s) && |s| > 0 && !LessEq(x, s[0])
    requires Sorted(r') && multiset(r') == multiset(s[1..]) + multiset{x}
    requires NoDup(s[1..]) && x !in s[1..] ==> NoDup(r')
    ensures Sorted([s[0]] + r')
    ensures multiset([s[0]] + r') == multiset(s) + multiset{x}
    ensures NoDup(s) && x !in s ==> NoDup([s[0]] + r')
  {
    assert s == [s[0]] + s[1..];
    LessEqTotal(x, s[0]);
    forall j | 0 <= j < |r'|
      ensures LessEq(s[0], r'[j])
    {
      assert r'[j] in multiset(r');
      if r'[j] != x {
        assert r'[j] in s[1..];
      }
    }
    if NoDup(s) && x !in s {
      assert s[0] !in s[1..];
      assert s[0] !in multiset(r');
    }
  }

  /** The strings of `s` in ascending order (insertion sort). */
  function Sort(s: seq<string>): (r: seq<string>)
    ensures Sorted(r)
    ensures multiset(r) == multiset(s)
    ensures NoDup(s) ==> StrictlySorted(r)
    decreases |s|
  {
    if |s| == 0 then []
    else
      assert s == [s[0]] + s[1..];
      var r' := Sort(s[1..]);
      assert s[0] in multiset(r') <==> s[0] in s[1..];
      Insert(s[0], r')
  }

  /** Two strictly sorted lists with the same elements are equal: a sorted,
      de-duplicated list is determined by its set of elements. */
  lemma {:induction false} StrictlySortedUnique(a: seq<string>, b: seq<string>)
    requires StrictlySorted(a) && StrictlySorted(b)
    requires forall x :: x in a <==> x in b
    ensures a == b
    decreases |a|
  {
    if |a| > 0 {
      assert a[0] in a;
    }
    if |b| > 0 {
      assert b[0] in b;
    }
    if |a| > 0 && |b| > 0 {
      var i :| 0 <= i < |b| && b[i] == a[0];
      var k :| 0 <= k < |a| && a[k] == b[0];
      assert LessEq(a[0], b[0]) by {
        if k == 0 { LessEqRefl(a[0]); }
      }
      assert LessEq(b[0], a[0]) by {
        if i == 0 { LessEqRefl(b[0]); }
      }
      LessEqAntisym(a[0], b[0]);
      forall x
        ensures x in a[1..] <==> x in b[1..]
      {
        assert a == [a[0]] + a[1..] && b == [b[0]] + b[1..];
        if x in a[1..] {
          var m :| 0 <= m < |a| - 1 && a[1..][m] == x;
          assert x != a[0] by { assert a[m + 1] == x; }
          assert x in b;
          var n :| 0 <= n < |b| && b[n] == x;
          assert b[1..][n - 1] == x;
        }
        if x in b[1..] {
          var m :| 0 <= m < |b| - 1 && b[1..][m] == x;
          assert x != b[0] by { assert b[m + 1] == x; }
          assert x in a;
          var n :| 0 <= n < |a| && a[n] == x;
          assert a[1..][n - 1] == x;
        }
      }
      StrictlySortedUnique(a[1..], b[1..]);
      assert a == [a[0]] + a[1..];
      assert b == [b[0]] + b[1..];
    }
  }

  // ---------------------------------------------------------------------
  // startsWith, indexOf(substring) and replace(substring, replacement)
  // ---------------------------------------------------------------------

  predicate StartsWith(s: string, prefix: string) {
    |prefix| <= |s| && s[..|prefix|] == prefix
  }

  /** `pat` occurs in `s` starting at position `k`. */
  predicate OccursAt(s: string, pat: string, k: int) {
    0 <= k && k + |pat| <= |s| && s[k..k + |pat|] == pat
  }

  lemma OccursShift(s: string, pat: string)
    ensures OccursAt(s, pat, 0) <==> StartsWith(s, pat)
    ensures |s| > 0 ==> forall j :: 1 <= j ==> (OccursAt(s, pat, j) <==> OccursAt(s[1..], pat, j - 1))
  {
    if |s| > 0 {
      forall j | 1 <= j
        ensures OccursAt(s, pat, j) <==> OccursAt(s[1..], pat, j - 1)
      {
        if j + |pat| <= |s| {
          assert s[1..][j - 1..] == s[j..];
          assert s[j..j + |pat|] == s[j..][..|pat|];
          assert s[1..][j - 1..j - 1 + |pat|] == s[1..][j - 1..][..|pat|];
        }
      }
    }
  }

  /** Position of the first occurrence of `pat` in `s`, or -1. */
  function Find(s: string, pat: string): (k: int)
    ensures k == -1 ==> forall j :: !OccursAt(s, pat, j)
    ensures k != -1 ==> OccursAt(s, pat, k) && forall j :: 0 <= j < k ==> !OccursAt(s, pat, j)
    decreases |s|
  {
    OccursShift(s, pat);
    if StartsWith(s, pat) then 0
    else if |s| == 0 then -1
    else
      var j := Find(s[1..], pat);
      if j == -1 then -1 else j + 1
  }

  /** `s.replace(pat, "")` with a plain-string pattern: the first occurrence
      of `pat` is cut out; without an occurrence `s` is unchanged. (Only the
      empty replacement is modelled, so JavaScript's `$` patterns in a
      replacement string never arise.) */
  function RemoveFirst(s: string, pat: string): (r: string)
    ensures (forall j :: !OccursAt(s, pat, j)) ==> r == s
    ensures forall k :: OccursAt(s, pat, k) && (forall j :: 0 <= j < k ==> !OccursAt(s, pat, j)) ==>
      r == s[..k] + s[k + |pat|..]
  {
    var k := Find(s, pat);
    if k == -1 then s else s[..k] + s[k + |pat|..]
  }

  /** Removing a prefix the string starts with leaves exactly the rest. */
  lemma StripPrefix(s: string, prefix: string)
    requires StartsWith(s, prefix)
    ensures prefix + RemoveFirst(s, prefix) == s
  {
    assert Find(s, prefix) == 0;
    assert RemoveFirst(s, prefix) == s[|prefix|..];
    assert s == s[..|prefix|] + s[|prefix|..];
  }

  /** A pattern longer than the string cannot occur, so nothing is replaced. */
  lemma RemoveInShorter(s: string, pat: string)
    requires |s| < |pat|
    ensures RemoveFirst(s, pat) == s
  {
  }

  // ---------------------------------------------------------------------
  // Around the first occurrence of a character (split(c)[0] and the rest)
  // ---------------------------------------------------------------------

  /** The part of `s` before the first `c` (all of `s` when there is none). */
  function Before(s: string, c: char): (r: string)
    ensures c !in r
    ensures StartsWith(s, r)
    ensures |r| == |s| || s[|r|] == c
  {
    var i := IndexOf(s, c);
    if i == -1 then s else s[..i]
  }

  /** The part of `s` after its first `c` (everything after it, not only
      up to a next `c`). */
  function After(s: string, c: char): string
    requires c in s
  {
    s[IndexOf(s, c) + 1..]
  }

  /** `s` is what comes before its first `c`, then that `c`, then the rest. */
  lemma AfterSplits(s: string, c: char)
    requires c in s
    ensures s == Before(s, c) + [c] + After(s, c)
  {
  }
}
