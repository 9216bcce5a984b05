/** The role records both views consume, and the sorted, de-duplicated
    union of their permissions (`flatMap` + `uniq` + `sort`), which the
    comparison view offers as "ALL PERMISSIONS" and the browse view lists as
    the related permissions of a service. */
module Roles {
  import opened Seqs
  import opened Strings

  /** An IAM role: `roles/<service>.<id>` or one of the four project-level
      names, a launch stage, and the permissions it includes. */
  datatype Role = Role(name: string, stage: string, includedPermissions: seq<string>)

  /** Some role in `roles` includes `p`. */
  ghost predicate Grants(roles: seq<Role>, p: string) {
    exists r :: r in roles && p in r.includedPermissions
  }

  /** `flatMap(role => role.includedPermissions)`: every role's permissions,
      role after role. */
  function Flatten(roles: seq<Role>): (ps: seq<string>)
    ensures forall p :: p in ps <==> Grants(roles, p)
    decreases |roles|
  {
    if |roles| == 0 then []
    else
      var rs, r := roles[..|roles| - 1], roles[|roles| - 1];
      assert roles == rs + [r];
      Flatten(rs) + r.includedPermissions
  }

  /** The distinct permissions of all `roles`, in ascending order. */
  function SortedUnion(roles: seq<Role>): (ps: seq<string>)
    ensures StrictlySorted(ps)
    ensures forall p :: p in ps <==> Grants(roles, p)
  {
    var u := Uniq(Flatten(roles));
    var ps := Sort(u);
    assert forall p :: p in ps <==> p in multiset(ps);
    assert forall p :: p in u <==> p in multiset(u);
    ps
  }

  /** The union depends only on which roles are present, not on their order
      or repetitions. */
  lemma SortedUnionBySet(a: seq<Role>, b: seq<Role>)
    requires forall r :: r in a <==> r in b
    ensures SortedUnion(a) == SortedUnion(b)
  {
    forall p
      ensures p in SortedUnion(a) <==> p in SortedUnion(b)
    {
      if Grants(a, p) {
        var r :| r in a && p in r.includedPermissions;
        assert r in b;
      }
      if Grants(b, p) {
        var r :| r in b && p in r.includedPermissions;
        assert r in a;
      }
    }
    StrictlySortedUnique(SortedUnion(a), SortedUnion(b));
  }
}
