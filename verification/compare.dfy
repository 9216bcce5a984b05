/** The comparison view: the permission diff of two roles (`makeDiff`), the
    "ALL PERMISSIONS" pseudo-role offered next to the real roles, and the
    two-column table that lists the one-sided permissions. */
module Compare {
  import opened Seqs
  import opened Strings
  import opened Roles

  /** Permissions only the left role has, only the right role has, and both have. */
  datatype Diff = Diff(leftOnly: seq<string>, rightOnly: seq<string>, common: seq<string>)

  // ---------------------------------------------------------------------
  // makeDiff
  // ---------------------------------------------------------------------

  /** One iteration of the loop over the right role's permissions: a
      permission still present on the left is moved to `common`, taking its
      first occurrence out of `leftOnly`; any other goes to `rightOnly`. */
  function Step(d: Diff, p: string): Diff {
    var k := IndexOf(d.leftOnly, p);
    if k >= 0 then Diff(RemoveAt(d.leftOnly, k), d.rightOnly, d.common + [p])
    else Diff(d.leftOnly, d.rightOnly + [p], d.common)
  }

  /** The diff of two permission lists: the loop of `makeDiff` as a fold over
      `right`, starting from all of `left` on the left-only side. */
  function DiffOf(left: seq<string>, right: seq<string>): Diff
    decreases |right|
  {
    if |right| == 0 then Diff(left, [], [])
    else Step(DiffOf(left, right[..|right| - 1]), right[|right| - 1])
  }

  /** What the diff means. Counted with multiplicities, `leftOnly` holds what
      `left` has beyond `right`, `rightOnly` what `right` has beyond `left`,
      and `common` the overlap; `leftOnly` keeps the order of `left`, and
      `right` is recovered by interleaving `common` with `rightOnly`. With a
      repeated permission these facts leave open which of its copies move;
      `DiffOfGreedy` settles that. */
  lemma {:induction false} DiffOfSpec(left: seq<string>, right: seq<string>)
    ensures var d := DiffOf(left, right);
      && multiset(d.leftOnly) == multiset(left) - multiset(right)
      && multiset(d.rightOnly) == multiset(right) - multiset(left)
      && multiset(d.common) == multiset(left) * multiset(right)
      && IsSubsequence(d.leftOnly, left)
      && IsInterleaving(right, d.common, d.rightOnly)
    decreases |right|
  {
    if |right| == 0 {
      SubsequenceRefl(left);
    } else {
      var right', p := right[..|right| - 1], right[|right| - 1];
      assert right == right' + [p];
      DiffOfSpec(left, right');
      StepKeepsCounts(left, right', DiffOf(left, right'), p);
    }
  }

  /** The diff, copies included: each permission of `right` takes the
      earliest copy still unmatched on the left. So `leftOnly` is `left`
      without its first `n` copies of each permission that `right` holds `n`
      times, `common` is the copies of `right` reached while the left still
      had one to spare, and `rightOnly` is the rest of `right`. */
  lemma {:induction false} DiffOfGreedy(left: seq<string>, right: seq<string>)
    ensures DiffOf(left, right) == Diff(
      DropFirstCopies(left, multiset(right)),
      DropFirstCopies(right, multiset(left)),
      TakeFirstCopies(right, multiset(left)))
    decreases |right|
  {
    if |right| == 0 {
      DropNothing(left);
    } else {
      var right', p := right[..|right| - 1], right[|right| - 1];
      assert right == right' + [p];
      DiffOfGreedy(left, right');
      GreedyStep(left, right', p);
    }
  }

  lemma GreedyStep(left: seq<string>, right: seq<string>, p: string)
    requires DiffOf(left, right) == Diff(
      DropFirstCopies(left, multiset(right)),
      DropFirstCopies(right, multiset(left)),
      TakeFirstCopies(right, multiset(left)))
    ensures var right' := right + [p];
      Step(DiffOf(left, right), p) == Diff(
        DropFirstCopies(left, multiset(right')),
        DropFirstCopies(right', multiset(left)),
        TakeFirstCopies(right', multiset(left)))
  {
    var right' := right + [p];
    assert right'[..|right'| - 1] == right;
    assert multiset(right') == multiset(right) + multiset{p};
    DropFirstCopiesMembers(left, multiset(right), p);
    if p in DropFirstCopies(left, multiset(right)) {
      GreedyMatched(left, right, p);
    } else {
      GreedyUnmatched(left, right, p);
    }
  }

  lemma GreedyMatched(left: seq<string>, right: seq<string>, p: string)
    requires multiset(left)[p] > multiset(right)[p]
    requires p in DropFirstCopies(left, multiset(right))
    ensures var d, right' := Diff(
        DropFirstCopies(left, multiset(right)),
        DropFirstCopies(right, multiset(left)),
        TakeFirstCopies(right, multiset(left))), right + [p];
      Step(d, p) == Diff(
        DropFirstCopies(left, multiset(right) + multiset{p}),
        DropFirstCopies(right', multiset(left)),
        TakeFirstCopies(right', multiset(left)))
  {
    var right' := right + [p];
    assert right'[..|right'| - 1] == right;
    assert DropFirstCopies(right', multiset(left)) == DropFirstCopies(right, multiset(left)) + [];
    assert TakeFirstCopies(right', multiset(left)) == TakeFirstCopies(right, multiset(left)) + [p];
    DropOneMoreCopy(left, multiset(right), p);
  }

  lemma GreedyUnmatched(left: seq<string>, right: seq<string>, p: string)
    requires multiset(left)[p] <= multiset(right)[p]
    requires p !in DropFirstCopies(left, multiset(right))
    ensures var d, right' := Diff(
        DropFirstCopies(left, multiset(right)),
        DropFirstCopies(right, multiset(left)),
        TakeFirstCopies(right, multiset(left))), right + [p];
      Step(d, p) == Diff(
        DropFirstCopies(left, multiset(right) + multiset{p}),
        DropFirstCopies(right', multiset(left)),
        TakeFirstCopies(right', multiset(left)))
  {
    var right' := right + [p];
    assert right'[..|right'| - 1] == right;
    assert DropFirstCopies(right', multiset(left)) == DropFirstCopies(right, multiset(left)) + [p];
    assert TakeFirstCopies(right', multiset(left)) == TakeFirstCopies(right, multiset(left)) + [];
    DropFirstCopiesAbsent(left, multiset(right), p);
  }

  lemma StepKeepsCounts(left: seq<string>, right: seq<string>, d: Diff, p: string)
    requires multiset(d.leftOnly) == multiset(left) - multiset(right)
    requires multiset(d.rightOnly) == multiset(right) - multiset(left)
    requires multiset(d.common) == multiset(left) * multiset(right)
    requires IsSubsequence(d.leftOnly, left)
    requires IsInterleaving(right, d.common, d.rightOnly)
    ensures var d', right' := Step(d, p), right + [p];
      && multiset(d'.leftOnly) == multiset(left) - multiset(right')
      && multiset(d'.rightOnly) == multiset(right') - multiset(left)
      && multiset(d'.common) == multiset(left) * multiset(right')
      && IsSubsequence(d'.leftOnly, left)
      && IsInterleaving(right', d'.common, d'.rightOnly)
  {
    StepCounts(left, right, d, p);
    StepOrder(left, right, d, p);
  }

  lemma StepCounts(left: seq<string>, right: seq<string>, d: Diff, p: string)
    requires multiset(d.leftOnly) == multiset(left) - multiset(right)
    requires multiset(d.rightOnly) == multiset(right) - multiset(left)
    requires multiset(d.common) == multiset(left) * multiset(right)
    ensures var d', right' := Step(d, p), right + [p];
      && multiset(d'.leftOnly) == multiset(left) - multiset(right')
      && multiset(d'.rightOnly) == multiset(right') - multiset(left)
      && multiset(d'.common) == multiset(left) * multiset(right')
  {
    assert multiset(right + [p]) == multiset(right) + multiset{p};
    var k := IndexOf(d.leftOnly, p);
    if k >= 0 {
      var d' := Diff(RemoveAt(d.leftOnly, k), d.rightOnly, d.common + [p]);
      assert Step(d, p) == d';
      assert multiset(d'.common) == multiset(d.common) + multiset{p};
      assert p in multiset(d.leftOnly);
      MultisetStep(multiset(left), multiset(right), p);
    } else {
      var d' := Diff(d.leftOnly, d.rightOnly + [p], d.common);
      assert Step(d, p) == d';
      assert multiset(d'.rightOnly) == multiset(d.rightOnly) + multiset{p};
      assert p !in multiset(d.leftOnly);
      MultisetStep(multiset(left), multiset(right), p);
    }
  }

  lemma StepOrder(left: seq<string>, right: seq<string>, d: Diff, p: string)
    requires IsSubsequence(d.leftOnly, left)
    requires IsInterleaving(right, d.common, d.rightOnly)
    ensures var d', right' := Step(d, p), right + [p];
      && IsSubsequence(d'.leftOnly, left)
      && IsInterleaving(right', d'.common, d'.rightOnly)
  {
    var right' := right + [p];
    assert right'[..|right|] == right;
    var k := IndexOf(d.leftOnly, p);
    if k >= 0 {
      var d' := Diff(RemoveAt(d.leftOnly, k), d.rightOnly, d.common + [p]);
      assert Step(d, p) == d';
      RemoveAtKeepsSubsequence(d.leftOnly, left, k);
      assert IsInterleaving(right', d'.common, d'.rightOnly) by {
        assert d'.common[..|d.common|] == d.common;
      }
    } else {
      var d' := Diff(d.leftOnly, d.rightOnly + [p], d.common);
      assert Step(d, p) == d';
      assert IsInterleaving(right', d'.common, d'.rightOnly) by {
        assert d'.rightOnly[..|d.rightOnly|] == d.rightOnly;
      }
    }
  }

  /** Counting one more `p` on the right: when the left still has a `p` to
      spare it moves from the left-only count to the common count, otherwise
      the right-only count grows. */
  lemma MultisetStep(a: multiset<string>, b: multiset<string>, p: string)
    ensures p in a - b ==>
      && (a - b) - multiset{p} == a - (b + multiset{p})
      && b - a == (b + multiset{p}) - a
      && (a * b) + multiset{p} == a * (b + multiset{p})
    ensures p !in a - b ==>
      && a - b == a - (b + multiset{p})
      && (b - a) + multiset{p} == (b + multiset{p}) - a
      && a * b == a * (b + multiset{p})
  {
  }

  /** `makeDiff`: no diff unless both roles are chosen; otherwise the loop
      over the right role's permissions, with `indexOf` and `splice` on a
      copy of the left role's permissions. */
  method MakeDiff(leftRole: Option<Role>, rightRole: Option<Role>) returns (diff: Option<Diff>)
    ensures diff.None? <==> leftRole.None? || rightRole.None?
    ensures diff.Some? ==>
      diff.value == DiffOf(leftRole.value.includedPermissions, rightRole.value.includedPermissions)
    ensures diff.Some? ==>
      var d, left, right := diff.value, leftRole.value.includedPermissions, rightRole.value.includedPermissions;
      && multiset(d.leftOnly) + multiset(d.common) == multiset(left)
      && multiset(d.rightOnly) + multiset(d.common) == multiset(right)
      && IsSubsequence(d.leftOnly, left)
      && IsInterleaving(right, d.common, d.rightOnly)
  {
    if leftRole.None? || rightRole.None? {
      return None;
    }
    var right := rightRole.value.includedPermissions;
    var leftOnly := leftRole.value.includedPermissions;
    var rightOnly := [];
    var common := [];
    var i := 0;
    while i < |right|
      invariant 0 <= i <= |right|
      invariant Diff(leftOnly, rightOnly, common) == DiffOf(leftRole.value.includedPermissions, right[..i])
    {
      var permission := right[i];
      assert right[..i + 1][..i] == right[..i];
      var leftIndex := IndexOf(leftOnly, permission);
      if leftIndex >= 0 {
        common := common + [permission];
        leftOnly := RemoveAt(leftOnly, leftIndex);
      } else {
        rightOnly := rightOnly + [permission];
      }
      i := i + 1;
    }
    assert right[..i] == right;
    DiffOfSpec(leftRole.value.includedPermissions, right);
    return Some(Diff(leftOnly, rightOnly, common));
  }

  // ---------------------------------------------------------------------
  // Properties of the diff
  // ---------------------------------------------------------------------

  /** Every left permission lands in `leftOnly` or `common`, every right one
      in `rightOnly` or `common`; so `common` is no longer than either list. */
  lemma DiffSizes(left: seq<string>, right: seq<string>)
    ensures var d := DiffOf(left, right);
      && |left| == |d.leftOnly| + |d.common|
      && |right| == |d.rightOnly| + |d.common|
      && |d.common| <= |left| && |d.common| <= |right|
  {
    var d := DiffOf(left, right);
    DiffOfSpec(left, right);
    assert multiset(d.leftOnly) + multiset(d.common) == multiset(left);
    assert multiset(d.rightOnly) + multiset(d.common) == multiset(right);
  }

  /** Diffing a role against itself leaves nothing one-sided, and `common` is
      its permission list unchanged, duplicates included. */
  lemma DiffOfSelf(s: seq<string>)
    ensures DiffOf(s, s) == Diff([], [], s)
  {
    var d := DiffOf(s, s);
    DiffOfSpec(s, s);
    assert multiset(d.leftOnly) == multiset{};
    assert multiset(d.rightOnly) == multiset{};
    InterleavingWithEmpty(s, d.common);
  }

  /** Swapping the roles swaps the one-sided parts and keeps the common
      part, up to order. */
  lemma DiffSwap(a: seq<string>, b: seq<string>)
    ensures multiset(DiffOf(a, b).common) == multiset(DiffOf(b, a).common)
    ensures multiset(DiffOf(a, b).leftOnly) == multiset(DiffOf(b, a).rightOnly)
    ensures multiset(DiffOf(a, b).rightOnly) == multiset(DiffOf(b, a).leftOnly)
  {
    DiffOfSpec(a, b);
    DiffOfSpec(b, a);
    assert multiset(a) * multiset(b) == multiset(b) * multiset(a);
  }

  /** The elements of `s` that do not occur in `t`, in order. */
  function Without(s: seq<string>, t: seq<string>): seq<string>
    decreases |s|
  {
    if |s| == 0 then []
    else Without(s[..|s| - 1], t) + (if s[|s| - 1] in t then [] else [s[|s| - 1]])
  }

  /** The elements of `s` that occur in `t`, in order. */
  function Within(s: seq<string>, t: seq<string>): seq<string>
    decreases |s|
  {
    if |s| == 0 then []
    else Within(s[..|s| - 1], t) + (if s[|s| - 1] in t then [s[|s| - 1]] else [])
  }

  /** Which values survive each filter. */
  lemma {:induction false} WithinWithoutMembers(s: seq<string>, t: seq<string>, x: string)
    ensures x in Without(s, t) <==> x in s && x !in t
    ensures x in Within(s, t) <==> x in s && x in t
    decreases |s|
  {
    if |s| > 0 {
      var s', y := s[..|s| - 1], s[|s| - 1];
      assert s == s' + [y];
      WithinWithoutMembers(s', t, x);
    }
  }

  /** Both keep the order of `s`. */
  lemma {:induction false} WithinWithoutOrdered(s: seq<string>, t: seq<string>)
    ensures IsSubsequence(Within(s, t), s) && IsSubsequence(Without(s, t), s)
    decreases |s|
  {
    if |s| == 0 {
      SubsequenceRefl(s);
    } else {
      var s', x := s[..|s| - 1], s[|s| - 1];
      assert s == s' + [x];
      WithinWithoutOrdered(s', t);
      SubsequenceAppend(Within(s', t), s', x);
      SubsequenceAppend(Without(s', t), s', x);
      if x in t {
        assert Within(s, t) == Within(s', t) + [x];
        assert Without(s, t) == Without(s', t);
      } else {
        assert Within(s, t) == Within(s', t);
        assert Without(s, t) == Without(s', t) + [x];
      }
    }
  }

  lemma {:induction false} WithoutNothing(s: seq<string>)
    ensures Without(s, []) == s
    decreases |s|
  {
    if |s| > 0 {
      WithoutNothing(s[..|s| - 1]);
      assert s == s[..|s| - 1] + [s[|s| - 1]];
    }
  }

  /** Excluding one more value that `s` lacks changes nothing. */
  lemma {:induction false} WithoutAbsent(s: seq<string>, t: seq<string>, p: string)
    requires p !in s
    ensures Without(s, t + [p]) == Without(s, t)
    decreases |s|
  {
    if |s| > 0 {
      assert s == s[..|s| - 1] + [s[|s| - 1]];
      WithoutAbsent(s[..|s| - 1], t, p);
    }
  }

  /** In a duplicate-free list, taking `p` out of what survives the exclusion
      of `t` is the same as excluding `t` and `p` together. */
  lemma {:induction false} RemoveFromWithout(s: seq<string>, t: seq<string>, p: string)
    requires NoDup(s) && p in s && p !in t
    ensures p in Without(s, t)
    ensures RemoveAt(Without(s, t), IndexOf(Without(s, t), p)) == Without(s, t + [p])
    decreases |s|, 1
  {
    WithinWithoutMembers(s, t, p);
    var s', a := s[..|s| - 1], s[|s| - 1];
    assert s == s' + [a];
    assert NoDup(s');
    if a in t {
      RemoveFromWithoutSkip(s', a, t, p);
    } else if a == p {
      RemoveFromWithoutLast(s', t, p);
    } else {
      RemoveFromWithoutKeep(s', a, t, p);
    }
  }

  /** The case where the last element is excluded by `t`. */
  lemma {:induction false} RemoveFromWithoutSkip(s': seq<string>, a: string, t: seq<string>, p: string)
    requires NoDup(s') && p in s' && p !in t && a in t
    ensures p in Without(s' + [a], t)
    ensures RemoveAt(Without(s' + [a], t), IndexOf(Without(s' + [a], t), p)) == Without(s' + [a], t + [p])
    decreases |s'| + 1, 0
  {
    var s := s' + [a];
    assert s[..|s| - 1] == s';
    assert Without(s, t) == Without(s', t);
    assert Without(s, t + [p]) == Without(s', t + [p]);
    RemoveFromWithout(s', t, p);
  }

  /** The case where `p` is the last element. */
  lemma RemoveFromWithoutLast(s': seq<string>, t: seq<string>, p: string)
    requires p !in s' && p !in t
    ensures p in Without(s' + [p], t)
    ensures RemoveAt(Without(s' + [p], t), IndexOf(Without(s' + [p], t), p)) == Without(s' + [p], t + [p])
  {
    var s := s' + [p];
    assert s[..|s| - 1] == s';
    var w' := Without(s', t);
    assert Without(s, t) == w' + [p];
    assert Without(s, t + [p]) == Without(s', t + [p]);
    WithoutAbsent(s', t, p);
    WithinWithoutMembers(s', t, p);
    assert IndexOf(w' + [p], p) == |w'|;
    assert (w' + [p])[..|w'|] == w';
    assert RemoveAt(w' + [p], |w'|) == w';
  }

  /** The case where the last element is kept and is not `p`. */
  lemma {:induction false} RemoveFromWithoutKeep(s': seq<string>, a: string, t: seq<string>, p: string)
    requires NoDup(s') && p in s' && p !in t && a !in t && a != p
    ensures p in Without(s' + [a], t)
    ensures RemoveAt(Without(s' + [a], t), IndexOf(Without(s' + [a], t), p)) == Without(s' + [a], t + [p])
    decreases |s'| + 1, 0
  {
    var s := s' + [a];
    assert s[..|s| - 1] == s';
    var w' := Without(s', t);
    assert Without(s, t) == w' + [a];
    assert Without(s, t + [p]) == Without(s', t + [p]) + [a];
    RemoveFromWithout(s', t, p);
    var i := IndexOf(w', p);
    IndexOfAppend(w', a, p);
    RemoveAtAppend(w', a, i);
  }

  /** For duplicate-free lists the diff is plain set arithmetic: `leftOnly`
      is the left list minus the right one, `rightOnly` the right list minus
      the left one, and `common` the right list's elements the left one also
      has, each in its list's order. */
  lemma {:induction false} DiffOfDistinct(left: seq<string>, right: seq<string>)
    requires NoDup(left) && NoDup(right)
    ensures DiffOf(left, right) == Diff(Without(left, right), Without(right, left), Within(right, left))
    decreases |right|
  {
    if |right| == 0 {
      WithoutNothing(left);
    } else {
      var right', p := right[..|right| - 1], right[|right| - 1];
      assert right == right' + [p];
      assert NoDup(right') && p !in right';
      DiffOfDistinct(left, right');
      DistinctStep(left, right', p);
    }
  }

  /** One step of `DiffOfDistinct`: a right permission not seen before. */
  lemma DistinctStep(left: seq<string>, right: seq<string>, p: string)
    requires NoDup(left) && p !in right
    requires DiffOf(left, right) == Diff(Without(left, right), Without(right, left), Within(right, left))
    ensures var right' := right + [p];
      DiffOf(left, right') == Diff(Without(left, right'), Without(right', left), Within(right', left))
  {
    var right' := right + [p];
    assert right'[..|right'| - 1] == right;
    assert DiffOf(left, right') == Step(DiffOf(left, right), p);
    assert Without(right', left) == Without(right, left) + (if p in left then [] else [p]);
    assert Within(right', left) == Within(right, left) + (if p in left then [p] else []);
    WithinWithoutMembers(left, right, p);
    if p in left {
      RemoveFromWithout(left, right, p);
    } else {
      WithoutAbsent(left, right, p);
    }
  }

  // ---------------------------------------------------------------------
  // The "ALL PERMISSIONS" pseudo-role
  // ---------------------------------------------------------------------

  const AllPermissionsName: string := "ALL PERMISSIONS"

  /** The pseudo-role whose permissions are those of every real role, each
      once, in ascending order. */
  function AllPermissionsRole(roles: seq<Role>): (all: Role)
    ensures all.name == AllPermissionsName && all.stage == ""
    ensures StrictlySorted(all.includedPermissions)
    ensures forall p :: p in all.includedPermissions <==> Grants(roles, p)
  {
    Role(AllPermissionsName, "", SortedUnion(roles))
  }

  /** The roles offered for comparison: the pseudo-role first, then the real
      roles unchanged and in order. */
  function RolesPlusAll(roles: seq<Role>): (options: seq<Role>)
    ensures |options| == |roles| + 1
    ensures options[0] == AllPermissionsRole(roles) && options[1..] == roles
  {
    [AllPermissionsRole(roles)] + roles
  }

  /** Every option, the pseudo-role included, includes only permissions the
      pseudo-role includes. */
  lemma AllPermissionsCoversOptions(roles: seq<Role>)
    ensures var options := RolesPlusAll(roles);
      forall i, p :: 0 <= i < |options| && p in options[i].includedPermissions ==>
        p in options[0].includedPermissions
  {
    var options := RolesPlusAll(roles);
    forall i, p | 0 < i < |options| && p in options[i].includedPermissions
      ensures p in options[0].includedPermissions
    {
      assert options[i] == roles[i - 1];
    }
  }

  /** A strictly sorted list stays strictly sorted when elements are dropped. */
  lemma SubsequenceStrictlySorted(a: seq<string>, s: seq<string>)
    requires IsSubsequence(a, s) && StrictlySorted(s)
    ensures StrictlySorted(a)
  {
    var idx :| Embeds(idx, a, s);
    forall i, j | 0 <= i < j < |a|
      ensures LessEq(a[i], a[j]) && a[i] != a[j]
    {
      assert idx[i] < idx[j];
    }
  }

  /** Comparing a duplicate-free list against a strictly sorted superset:
      nothing is left-only, the common part is the list in sorted order, and
      the right-only part is the rest of the superset, still sorted. */
  lemma DiffAgainstSuperset(perms: seq<string>, all: seq<string>)
    requires NoDup(perms) && StrictlySorted(all)
    requires forall p :: p in perms ==> p in all
    ensures var d := DiffOf(perms, all);
      && d.leftOnly == []
      && d.common == Sort(perms)
      && StrictlySorted(d.rightOnly)
      && forall p :: p in d.rightOnly <==> p in all && p !in perms
  {
    DiffOfDistinct(perms, all);
    var d := DiffOf(perms, all);
    assert |d.leftOnly| > 0 ==> d.leftOnly[0] in d.leftOnly;
    forall p
      ensures p !in d.leftOnly
      ensures p in d.common <==> p in perms
      ensures p in d.rightOnly <==> p in all && p !in perms
    {
      WithinWithoutMembers(perms, all, p);
      WithinWithoutMembers(all, perms, p);
    }
    WithinWithoutOrdered(all, perms);
    SubsequenceStrictlySorted(d.rightOnly, all);
    SortedCommon(perms, all, d.common);
  }

  lemma SortedCommon(perms: seq<string>, all: seq<string>, common: seq<string>)
    requires NoDup(perms) && StrictlySorted(all) && IsSubsequence(common, all)
    requires forall p :: p in common <==> p in perms
    ensures common == Sort(perms)
  {
    SubsequenceStrictlySorted(common, all);
    var s := Sort(perms);
    assert forall p :: p in s <==> p in multiset(s);
    assert forall p :: p in perms <==> p in multiset(perms);
    StrictlySortedUnique(common, s);
  }

  /** Comparing a role against "ALL PERMISSIONS": nothing is left-only, the
      common part is the role's permissions in sorted order, and the
      right-only part is, in sorted order, every permission some other
      listed role grants that this role lacks. */
  lemma DiffAgainstAllPermissions(roles: seq<Role>, i: int)
    requires 0 <= i < |roles| && NoDup(roles[i].includedPermissions)
    ensures var perms, all := roles[i].includedPermissions, AllPermissionsRole(roles).includedPermissions;
      var d := DiffOf(perms, all);
      && d.leftOnly == []
      && d.common == Sort(perms)
      && StrictlySorted(d.rightOnly)
      && forall p :: p in d.rightOnly <==> Grants(roles, p) && p !in perms
  {
    var perms, all := roles[i].includedPermissions, AllPermissionsRole(roles).includedPermissions;
    forall p | p in perms
      ensures p in all
    {
      assert roles[i] in roles;
    }
    DiffAgainstSuperset(perms, all);
  }

  // ---------------------------------------------------------------------
  // The one-sided table, as written
  // ---------------------------------------------------------------------

  const NonePlaceholder: string := "- none -"

  function Max(a: int, b: int): int {
    if a < b then b else a
  }

  /** The text of row `index` in one column: the entry when there is a
      non-empty one, otherwise the placeholder on the first row only. */
  function CellText(column: seq<string>, index: int): string {
    if 0 <= index < |column| && column[index] != "" then column[index]
    else if index == 0 then NonePlaceholder
    else ""
  }

  /** lodash 4's `_.range(0, end)`: counts up from 0 to just below `end`,
      and for a negative `end` counts down from 0 to just above it, so
      `_.range(0, -1)` is `[0]`. */
  function Range(end: int): (r: seq<int>)
    ensures |r| == if end < 0 then -end else end
    ensures forall i :: 0 <= i < |r| ==> r[i] == if end < 0 then -i else i
  {
    if end < 0 then seq(-end, i => -i) else seq(end, i => i)
  }

  /** The rows of the left-only / right-only table: one row per index of
      `_.range(0, max(|leftOnly|, |rightOnly|) - 1)`. */
  function ComparisonRows(d: Diff): (rows: seq<(string, string)>)
    ensures var indices := Range(Max(|d.leftOnly|, |d.rightOnly|) - 1);
      && |rows| == |indices|
      && forall i :: 0 <= i < |rows| ==>
           rows[i] == (CellText(d.leftOnly, indices[i]), CellText(d.rightOnly, indices[i]))
  {
    var indices := Range(Max(|d.leftOnly|, |d.rightOnly|) - 1);
    seq(|indices|, i requires 0 <= i < |indices| =>
      (CellText(d.leftOnly, indices[i]), CellText(d.rightOnly, indices[i])))
  }

  /** As written, the table is one row short of the longer column once that
      column has two or more entries: its last entry is never shown. A
      single one-sided permission is not shown at all, while a diff with
      nothing on either side shows one placeholder row. */
  lemma ComparisonRowsOneShort(d: Diff)
    ensures var rows, m := ComparisonRows(d), Max(|d.leftOnly|, |d.rightOnly|);
      && (m == 0 ==> rows == [(NonePlaceholder, NonePlaceholder)])
      && (m == 1 ==> rows == [])
      && (m >= 2 ==> |rows| == m - 1)
      && (m >= 2 ==> rows[m - 2] == (CellText(d.leftOnly, m - 2), CellText(d.rightOnly, m - 2)))
  {
  }
}
