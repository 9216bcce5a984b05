/** Sequence vocabulary shared by the comparison and browse views: an
    optional value, duplicate-freedom, subsequences, interleavings, and the
    array operations the views use (`filter`, `indexOf`, `splice`, lodash
    `uniq`). Recursive definitions peel the LAST element, so that they follow
    a left-to-right loop one iteration at a time. */
module Seqs {

  /** A value that may be absent (`undefined` in the views). */
  datatype Option<+T> = None | Some(value: T)

  /** No element occurs twice. */
  predicate NoDup<T(==)>(s: seq<T>) {
    forall i, j :: 0 <= i < j < |s| ==> s[i] != s[j]
  }

  /** Putting a new element in front keeps a list duplicate-free. */
  lemma PrependNoDup<T>(x: T, s: seq<T>)
    requires NoDup(s) && x !in s
    ensures NoDup([x] + s)
  {
    forall i, j | 0 <= i < j < |s| + 1
      ensures ([x] + s)[i] != ([x] + s)[j]
    {
      assert ([x] + s)[j] == s[j - 1];
    }
  }

  // ---------------------------------------------------------------------
  // Subsequences
  // ---------------------------------------------------------------------

  /** `idx` lists strictly increasing positions of `s` that spell out `a`. */
  ghost predicate Embeds<T>(idx: seq<int>, a: seq<T>, s: seq<T>) {
    && |idx| == |a|
    && (forall k :: 0 <= k < |idx| ==> 0 <= idx[k] < |s| && a[k] == s[idx[k]])
    && (forall k, l :: 0 <= k < l < |idx| ==> idx[k] < idx[l])
  }

  /** `a` is obtained from `s` by deleting elements, keeping the order of the rest. */
  ghost predicate IsSubsequence<T>(a: seq<T>, s: seq<T>) {
    exists idx :: Embeds(idx, a, s)
  }

  lemma SubsequenceRefl<T>(s: seq<T>)
    ensures IsSubsequence(s, s)
  {
    var idx := seq(|s|, k => k);
    assert Embeds(idx, s, s);
  }

  /** Appending to the whole keeps a subsequence, and appending to both extends it. */
  lemma SubsequenceAppend<T>(a: seq<T>, s: seq<T>, x: T)
    requires IsSubsequence(a, s)
    ensures IsSubsequence(a, s + [x])
    ensures IsSubsequence(a + [x], s + [x])
  {
    var idx :| Embeds(idx, a, s);
    assert Embeds(idx, a, s + [x]);
    assert Embeds(idx + [|s|], a + [x], s + [x]);
  }

  lemma SubsequenceTrans<T>(a: seq<T>, b: seq<T>, c: seq<T>)
    requires IsSubsequence(a, b) && IsSubsequence(b, c)
    ensures IsSubsequence(a, c)
  {
    var f :| Embeds(f, a, b);
    var g :| Embeds(g, b, c);
    var h := seq(|f|, k requires 0 <= k < |f| => g[f[k]]);
    assert Embeds(h, a, c);
  }

  // ---------------------------------------------------------------------
  // Interleavings
  // ---------------------------------------------------------------------

  /** `s` is a merge of `xs` and `ys`: every element of `s` is taken from
      exactly one of the two, and each keeps its own order. */
  predicate IsInterleaving<T(==)>(s: seq<T>, xs: seq<T>, ys: seq<T>)
    decreases |s|
  {
    if |s| == 0 then xs == [] && ys == []
    else
      || (|xs| > 0 && xs[|xs| - 1] == s[|s| - 1] && IsInterleaving(s[..|s| - 1], xs[..|xs| - 1], ys))
      || (|ys| > 0 && ys[|ys| - 1] == s[|s| - 1] && IsInterleaving(s[..|s| - 1], xs, ys[..|ys| - 1]))
  }

  /** What an interleaving guarantees: lengths add up, elements are split
      between the two parts with their multiplicities, and both parts are
      subsequences of the whole. */
  lemma {:induction false} InterleavingSplits<T>(s: seq<T>, xs: seq<T>, ys: seq<T>)
    requires IsInterleaving(s, xs, ys)
    ensures |s| == |xs| + |ys|
    ensures multiset(s) == multiset(xs) + multiset(ys)
    ensures IsSubsequence(xs, s) && IsSubsequence(ys, s)
    decreases |s|
  {
    if |s| == 0 {
      SubsequenceRefl(s);
    } else {
      var s', x := s[..|s| - 1], s[|s| - 1];
      assert s == s' + [x];
      if |xs| > 0 && xs[|xs| - 1] == x && IsInterleaving(s', xs[..|xs| - 1], ys) {
        var xs' := xs[..|xs| - 1];
        assert xs == xs' + [x];
        InterleavingSplits(s', xs', ys);
        SubsequenceAppend(xs', s', x);
        SubsequenceAppend(ys, s', x);
      } else {
        var ys' := ys[..|ys| - 1];
        assert ys == ys' + [x];
        InterleavingSplits(s', xs, ys');
        SubsequenceAppend(xs, s', x);
        SubsequenceAppend(ys', s', x);
      }
    }
  }

  /** Interleaving with nothing gives back the sequence itself. */
  lemma {:induction false} InterleavingWithEmpty<T>(s: seq<T>, xs: seq<T>)
    requires IsInterleaving(s, xs, [])
    ensures xs == s
    decreases |s|
  {
    if |s| > 0 {
      InterleavingWithEmpty(s[..|s| - 1], xs[..|xs| - 1]);
      assert s == s[..|s| - 1] + [s[|s| - 1]];
      assert xs == xs[..|xs| - 1] + [xs[|xs| - 1]];
    }
  }

  // ---------------------------------------------------------------------
  // Array.prototype.filter
  // ---------------------------------------------------------------------

  /** The elements of `s` that satisfy `keep`, in order. */
  function Filter<T(==,!new)>(s: seq<T>, keep: T -> bool): (r: seq<T>)
    ensures forall x :: x in r <==> x in s && keep(x)
    decreases |s|
  {
    if |s| == 0 then []
    else
      var s', x := s[..|s| - 1], s[|s| - 1];
      assert s == s' + [x];
      Filter(s', keep) + (if keep(x) then [x] else [])
  }

  /** `Filter` keeps every element that satisfies `keep`, with its
      multiplicity, drops every other one, and keeps the order of `s`. */
  lemma FilterExact<T(!new)>(s: seq<T>, keep: T -> bool)
    ensures forall x :: multiset(Filter(s, keep))[x] == if keep(x) then multiset(s)[x] else 0
    ensures IsSubsequence(Filter(s, keep), s)
  {
    FilterCounts(s, keep);
    FilterOrdered(s, keep);
  }

  lemma {:induction false} FilterCounts<T(!new)>(s: seq<T>, keep: T -> bool)
    ensures forall x :: multiset(Filter(s, keep))[x] == if keep(x) then multiset(s)[x] else 0
    decreases |s|
  {
    if |s| > 0 {
      var s', x := s[..|s| - 1], s[|s| - 1];
      assert s == s' + [x];
      var r' := Filter(s', keep);
      var r := r' + (if keep(x) then [x] else []);
      assert Filter(s, keep) == r;
      FilterCounts(s', keep);
      assert multiset(s) == multiset(s') + multiset{x};
      assert multiset(r) == multiset(r') + if keep(x) then multiset{x} else multiset{};
    }
  }

  lemma {:induction false} FilterOrdered<T(!new)>(s: seq<T>, keep: T -> bool)
    ensures IsSubsequence(Filter(s, keep), s)
    decreases |s|
  {
    if |s| == 0 {
      SubsequenceRefl(s);
    } else {
      var s', x := s[..|s| - 1], s[|s| - 1];
      assert s == s' + [x];
      var r' := Filter(s', keep);
      assert Filter(s, keep) == r' + (if keep(x) then [x] else []);
      FilterOrdered(s', keep);
      SubsequenceAppend(r', s', x);
      if !keep(x) {
        assert r' + [] == r';
      }
    }
  }

  /** A filter that every element passes keeps the whole sequence. */
  lemma {:induction false} FilterKeepsAll<T(!new)>(s: seq<T>, keep: T -> bool)
    requires forall x :: x in s ==> keep(x)
    ensures Filter(s, keep) == s
    decreases |s|
  {
    if |s| > 0 {
      assert s == s[..|s| - 1] + [s[|s| - 1]];
      FilterKeepsAll(s[..|s| - 1], keep);
    }
  }

  /** A filter that no element passes leaves nothing. */
  lemma FilterDropsAll<T(!new)>(s: seq<T>, keep: T -> bool)
    requires forall x :: x in s ==> !keep(x)
    ensures Filter(s, keep) == []
  {
  }

  lemma {:induction false} FilterConcat<T(!new)>(a: seq<T>, b: seq<T>, keep: T -> bool)
    ensures Filter(a + b, keep) == Filter(a, keep) + Filter(b, keep)
    decreases |b|
  {
    if |b| == 0 {
      assert a + b == a;
    } else {
      var b', x := b[..|b| - 1], b[|b| - 1];
      assert a + b == (a + b') + [x];
      assert b == b' + [x];
      FilterConcat(a, b', keep);
    }
  }

  // ---------------------------------------------------------------------
  // Array.prototype.indexOf and splice(i, 1)
  // ---------------------------------------------------------------------

  /** Position of the first occurrence of `x`, or -1 when there is none. */
  function IndexOf<T(==)>(s: seq<T>, x: T): (i: int)
    ensures -1 <= i < |s|
    ensures i == -1 <==> x !in s
    ensures 0 <= i ==> s[i] == x && x !in s[..i]
    decreases |s|
  {
    if |s| == 0 then -1
    else if s[0] == x then 0
    else
      var j := IndexOf(s[1..], x);
      if j == -1 then -1 else j + 1
  }

  /** Once `x` occurs in `s`, appending leaves its first position unchanged. */
  lemma {:induction false} IndexOfAppend<T>(s: seq<T>, y: T, x: T)
    requires x in s
    ensures IndexOf(s + [y], x) == IndexOf(s, x)
    decreases |s|
  {
    if s[0] != x {
      assert (s + [y])[1..] == s[1..] + [y];
      IndexOfAppend(s[1..], y, x);
    }
  }

  /** `s` without its element at position `i` (`splice(i, 1)`). */
  function RemoveAt<T(==)>(s: seq<T>, i: int): (r: seq<T>)
    requires 0 <= i < |s|
    ensures |r| == |s| - 1
    ensures multiset(r) == multiset(s) - multiset{s[i]}
  {
    assert s == s[..i] + [s[i]] + s[i + 1..];
    s[..i] + s[i + 1..]
  }

  lemma RemoveAtAppend<T>(s: seq<T>, x: T, i: int)
    requires 0 <= i < |s|
    ensures RemoveAt(s + [x], i) == RemoveAt(s, i) + [x]
  {
    assert (s + [x])[..i] == s[..i];
    assert (s + [x])[i + 1..] == s[i + 1..] + [x];
  }

  /** `s` without the first `b[x]` copies of each `x`, in the order of `s`. */
  function DropFirstCopies<T(==)>(s: seq<T>, b: multiset<T>): seq<T>
    decreases |s|
  {
    if |s| == 0 then []
    else
      var s', x := s[..|s| - 1], s[|s| - 1];
      DropFirstCopies(s', b) + (if multiset(s')[x] >= b[x] then [x] else [])
  }

  /** The first `b[x]` copies of each `x` in `s`, in the order of `s`. */
  function TakeFirstCopies<T(==)>(s: seq<T>, b: multiset<T>): seq<T>
    decreases |s|
  {
    if |s| == 0 then []
    else
      var s', x := s[..|s| - 1], s[|s| - 1];
      TakeFirstCopies(s', b) + (if multiset(s')[x] < b[x] then [x] else [])
  }

  /** With nothing to drop, every element survives. */
  lemma {:induction false} DropNothing<T>(s: seq<T>)
    ensures DropFirstCopies(s, multiset{}) == s
    decreases |s|
  {
    if |s| > 0 {
      DropNothing(s[..|s| - 1]);
      assert s == s[..|s| - 1] + [s[|s| - 1]];
    }
  }

  /** A copy of `x` survives exactly when `s` has more copies than are dropped. */
  lemma {:induction false} DropFirstCopiesMembers<T>(s: seq<T>, b: multiset<T>, x: T)
    ensures x in DropFirstCopies(s, b) <==> multiset(s)[x] > b[x]
    decreases |s|
  {
    if |s| > 0 {
      var s', y := s[..|s| - 1], s[|s| - 1];
      assert s == s' + [y];
      DropFirstCopiesMembers(s', b, x);
    }
  }

  /** Dropping one more copy of an `x` that is already all gone changes nothing. */
  lemma {:induction false} DropFirstCopiesAbsent<T>(s: seq<T>, b: multiset<T>, x: T)
    requires x !in DropFirstCopies(s, b)
    ensures DropFirstCopies(s, b + multiset{x}) == DropFirstCopies(s, b)
    decreases |s|
  {
    if |s| > 0 {
      var s', y := s[..|s| - 1], s[|s| - 1];
      DropFirstCopiesAbsent(s', b, x);
    }
  }

  /** Taking the first remaining `x` out of what survives is the same as
      dropping one more copy of `x` from the start. */
  lemma {:induction false} DropOneMoreCopy<T>(s: seq<T>, b: multiset<T>, x: T)
    requires x in DropFirstCopies(s, b)
    ensures var d := DropFirstCopies(s, b);
      RemoveAt(d, IndexOf(d, x)) == DropFirstCopies(s, b + multiset{x})
    decreases |s|
  {
    var s' := s[..|s| - 1];
    if x in DropFirstCopies(s', b) {
      DropOneMoreCopy(s', b, x);
      DropOneMoreEarlier(s, b, x);
    } else {
      DropOneMoreLast(s, b, x);
    }
  }

  lemma DropOneMoreEarlier<T>(s: seq<T>, b: multiset<T>, x: T)
    requires |s| > 0
    requires x in DropFirstCopies(s[..|s| - 1], b)
    requires var d' := DropFirstCopies(s[..|s| - 1], b);
      RemoveAt(d', IndexOf(d', x)) == DropFirstCopies(s[..|s| - 1], b + multiset{x})
    ensures var d := DropFirstCopies(s, b);
      RemoveAt(d, IndexOf(d, x)) == DropFirstCopies(s, b + multiset{x})
  {
    var s', y := s[..|s| - 1], s[|s| - 1];
    DropFirstCopiesMembers(s', b, x);
    var tail := DropFirstCopiesLast(s, b);
    var tail' := DropFirstCopiesLast(s, b + multiset{x});
    SameSurvivor(s', b, x, y);
    RemoveFirstBeforeTail(DropFirstCopies(s', b), tail, x);
  }

  /** `DropFirstCopies` unfolded once: the last element survives or not. */
  lemma DropFirstCopiesLast<T>(s: seq<T>, b: multiset<T>) returns (tail: seq<T>)
    requires |s| > 0
    ensures tail == if multiset(s[..|s| - 1])[s[|s| - 1]] >= b[s[|s| - 1]] then [s[|s| - 1]] else []
    ensures DropFirstCopies(s, b) == DropFirstCopies(s[..|s| - 1], b) + tail
  {
    tail := if multiset(s[..|s| - 1])[s[|s| - 1]] >= b[s[|s| - 1]] then [s[|s| - 1]] else [];
  }

  /** Dropping one more `x`, while `s` still has a copy of `x` to spare,
      does not change whether a further element survives. */
  lemma SameSurvivor<T>(s: seq<T>, b: multiset<T>, x: T, y: T)
    requires multiset(s)[x] > b[x]
    ensures multiset(s)[y] >= b[y] <==> multiset(s)[y] >= (b + multiset{x})[y]
  {
  }

  /** Appending at most one element leaves the first `x` where it was. */
  lemma RemoveFirstBeforeTail<T>(d: seq<T>, tail: seq<T>, x: T)
    requires x in d && |tail| <= 1
    ensures RemoveAt(d + tail, IndexOf(d + tail, x)) == RemoveAt(d, IndexOf(d, x)) + tail
  {
    if |tail| == 1 {
      assert tail == [tail[0]];
      IndexOfAppend(d, tail[0], x);
      RemoveAtAppend(d, tail[0], IndexOf(d, x));
    } else {
      assert d + tail == d;
      assert RemoveAt(d, IndexOf(d, x)) + tail == RemoveAt(d, IndexOf(d, x));
    }
  }

  lemma DropOneMoreLast<T>(s: seq<T>, b: multiset<T>, x: T)
    requires |s| > 0
    requires x in DropFirstCopies(s, b)
    requires x !in DropFirstCopies(s[..|s| - 1], b)
    ensures var d := DropFirstCopies(s, b);
      RemoveAt(d, IndexOf(d, x)) == DropFirstCopies(s, b + multiset{x})
  {
    var s', y := s[..|s| - 1], s[|s| - 1];
    var d' := DropFirstCopies(s', b);
    assert y == x && multiset(s')[x] >= b[x];
    assert DropFirstCopies(s, b) == d' + [x];
    DropFirstCopiesMembers(s', b, x);
    DropFirstCopiesAbsent(s', b, x);
    assert DropFirstCopies(s, b + multiset{x}) == DropFirstCopies(s', b + multiset{x}) + [];
    assert IndexOf(d' + [x], x) == |d'|;
    assert (d' + [x])[..|d'|] == d';
  }

  /** Dropping one element of a subsequence leaves a subsequence. */
  lemma RemoveAtKeepsSubsequence<T>(a: seq<T>, s: seq<T>, i: int)
    requires 0 <= i < |a| && IsSubsequence(a, s)
    ensures IsSubsequence(RemoveAt(a, i), s)
  {
    RemoveAtOrdered(a, i);
    SubsequenceTrans(RemoveAt(a, i), a, s);
  }

  lemma RemoveAtOrdered<T>(s: seq<T>, i: int)
    requires 0 <= i < |s|
    ensures IsSubsequence(s[..i] + s[i + 1..], s)
  {
    var r := s[..i] + s[i + 1..];
    var idx := seq(|r|, k => if k < i then k else k + 1);
    assert Embeds(idx, r, s);
  }

  // ---------------------------------------------------------------------
  // lodash uniq
  // ---------------------------------------------------------------------

  /** The distinct elements of `s`, each at its first occurrence. */
  function Uniq<T(==,!new)>(s: seq<T>): (r: seq<T>)
    ensures NoDup(r)
    ensures forall x :: x in r <==> x in s
    ensures IsSubsequence(r, s)
    ensures forall i, j :: 0 <= i < j < |r| ==> IndexOf(s, r[i]) < IndexOf(s, r[j])
    decreases |s|
  {
    if |s| == 0 then
      SubsequenceRefl(s);
      []
    else
      var s', x := s[..|s| - 1], s[|s| - 1];
      assert s == s' + [x];
      var u := Uniq(s');
      SubsequenceAppend(u, s', x);
      UniqKeepsFirstOccurrences(s', u, x);
      if x in u then u else u + [x]
  }

  /** The step of `Uniq`: positions of first occurrences are unaffected by
      appending, and a new element has its first occurrence at the end. */
  lemma UniqKeepsFirstOccurrences<T(!new)>(s: seq<T>, u: seq<T>, x: T)
    requires forall y :: y in u <==> y in s
    requires forall i, j :: 0 <= i < j < |u| ==> IndexOf(s, u[i]) < IndexOf(s, u[j])
    ensures forall i, j :: 0 <= i < j < |u| ==> IndexOf(s + [x], u[i]) < IndexOf(s + [x], u[j])
    ensures x !in u ==>
      var v := u + [x];
      forall i, j :: 0 <= i < j < |v| ==> IndexOf(s + [x], v[i]) < IndexOf(s + [x], v[j])
  {
    forall i | 0 <= i < |u|
      ensures IndexOf(s + [x], u[i]) == IndexOf(s, u[i]) < |s|
    {
      IndexOfAppend(s, x, u[i]);
    }
    if x !in u {
      assert x !in s;
      assert IndexOf(s + [x], x) == |s| by {
        assert (s + [x])[..|s|] == s;
      }
    }
  }
}
