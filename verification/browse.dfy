/** The browse view. For one service it shows a permission table: the
    roles of that service, most permissions first, against the sorted union
    of their permissions. For all services together it shows a service
    table: each service with its role names and their count. */
module Browse {
  import opened Seqs
  import opened Strings
  import opened Roles

  /** The four project-level roles, in display order. */
  const SpecialRoleNames: seq<string> := ["roles/owner", "roles/editor", "roles/viewer", "roles/browser"]

  /** The pseudo-service that stands for the four project-level roles. */
  const ProjectService: string := "project"

  const RolesPrefix: string := "roles/"

  /** `roles/<service>.`, the prefix of a service's role names. */
  function ServicePrefix(service: string): string {
    RolesPrefix + service + "."
  }

  predicate IsSpecial(r: Role) {
    r.name in SpecialRoleNames
  }

  predicate InService(r: Role, service: string) {
    StartsWith(r.name, ServicePrefix(service))
  }

  /** The roles the permission table of `service` shows: the project-level
      roles for "project", the roles named `roles/<service>.…` otherwise. */
  predicate Shown(service: string, r: Role) {
    if service == ProjectService then IsSpecial(r) else InService(r, service)
  }

  // ---------------------------------------------------------------------
  // Permission table: which roles, in which order
  // ---------------------------------------------------------------------

  /** The role filter, before sorting. */
  function SelectRoles(roles: seq<Role>, service: string): (sel: seq<Role>)
    ensures forall r :: r in sel <==> r in roles && Shown(service, r)
  {
    Filter(roles, r => Shown(service, r))
  }

  /** The selection keeps every shown role with its multiplicity, drops
      every other role, and keeps the input order. */
  lemma SelectRolesExact(roles: seq<Role>, service: string)
    ensures var sel := SelectRoles(roles, service);
      && IsSubsequence(sel, roles)
      && forall r :: multiset(sel)[r] == if Shown(service, r) then multiset(roles)[r] else 0
  {
    FilterExact(roles, r => Shown(service, r));
  }

  /** The sort key: the number of permissions a role includes. */
  function Count(r: Role): nat {
    |r.includedPermissions|
  }

  /** Most permissions first. */
  predicate NonIncreasing(s: seq<Role>) {
    forall i, j :: 0 <= i < j < |s| ==> Count(s[j]) <= Count(s[i])
  }

  /** Keeps the roles with exactly `k` permissions. */
  function HasCount(k: nat): Role -> bool {
    r => Count(r) == k
  }

  /** The roles of `s` with exactly `k` permissions, in order. */
  function WithCount(s: seq<Role>, k: nat): seq<Role> {
    Filter(s, HasCount(k))
  }

  /** `x` placed after every role with at least as many permissions. */
  function InsertByCount(x: Role, s: seq<Role>): (r: seq<Role>)
    requires NonIncreasing(s)
    ensures NonIncreasing(r)
    ensures multiset(r) == multiset(s) + multiset{x}
    decreases |s|
  {
    if |s| == 0 then [x]
    else if Count(s[0]) < Count(x) then
      InsertFirst(x, s);
      [x] + s
    else
      var r' := InsertByCount(x, s[1..]);
      InsertLater(x, s, r');
      [s[0]] + r'
  }

  lemma InsertFirst(x: Role, s: seq<Role>)
    requires NonIncreasing(s) && |s| > 0 && Count(s[0]) < Count(x)
    ensures NonIncreasing([x] + s)
    ensures multiset([x] + s) == multiset(s) + multiset{x}
  {
  }

  lemma InsertLater(x: Role, s: seq<Role>, r': seq<Role>)
    requires NonIncreasing(s) && |s| > 0 && Count(x) <= Count(s[0])
    requires NonIncreasing(r') && multiset(r') == multiset(s[1..]) + multiset{x}
    ensures NonIncreasing([s[0]] + r')
    ensures multiset([s[0]] + r') == multiset(s) + multiset{x}
  {
    assert s == [s[0]] + s[1..];
    forall j | 0 <= j < |r'|
      ensures Count(r'[j]) <= Count(s[0])
    {
      assert r'[j] in multiset(r');
      if r'[j] != x {
        assert r'[j] in s[1..];
      }
    }
  }

  /** `sort((a, b) => b.includedPermissions.length - a.includedPermissions.length)`:
      a stable sort, most permissions first (insertion sort). */
  function SortByCount(s: seq<Role>): (r: seq<Role>)
    ensures NonIncreasing(r)
    ensures multiset(r) == multiset(s)
    decreases |s|
  {
    if |s| == 0 then []
    else
      var s', x := s[..|s| - 1], s[|s| - 1];
      assert s == s' + [x];
      InsertByCount(x, SortByCount(s'))
  }

  /** Inserting keeps the order among roles of equal count, with `x` last. */
  lemma {:induction false} InsertByCountStable(x: Role, s: seq<Role>, k: nat)
    requires NonIncreasing(s)
    ensures WithCount(InsertByCount(x, s), k) == WithCount(s, k) + WithCount([x], k)
    decreases |s|
  {
    if |s| == 0 {
      assert WithCount([], k) == [];
    } else if Count(s[0]) < Count(x) {
      InsertFirstStable(x, s, k);
    } else {
      var r' := InsertByCount(x, s[1..]);
      assert InsertByCount(x, s) == [s[0]] + r';
      InsertByCountStable(x, s[1..], k);
      InsertLaterStable(x, s, r', k);
    }
  }

  lemma InsertFirstStable(x: Role, s: seq<Role>, k: nat)
    requires NonIncreasing(s) && |s| > 0 && Count(s[0]) < Count(x)
    ensures WithCount([x] + s, k) == WithCount(s, k) + WithCount([x], k)
  {
    FilterConcat([x], s, HasCount(k));
    if Count(x) == k {
      FilterDropsAll(s, HasCount(k));
    } else {
      FilterDropsAll([x], HasCount(k));
    }
  }

  lemma InsertLaterStable(x: Role, s: seq<Role>, r': seq<Role>, k: nat)
    requires |s| > 0
    requires WithCount(r', k) == WithCount(s[1..], k) + WithCount([x], k)
    ensures WithCount([s[0]] + r', k) == WithCount(s, k) + WithCount([x], k)
  {
    assert s == [s[0]] + s[1..];
    FilterConcat([s[0]], r', HasCount(k));
    FilterConcat([s[0]], s[1..], HasCount(k));
  }

  /** The sort is stable: for every count, the roles with that count appear
      in the same order as in the input. */
  lemma {:induction false} SortByCountStable(s: seq<Role>, k: nat)
    ensures WithCount(SortByCount(s), k) == WithCount(s, k)
    decreases |s|
  {
    if |s| > 0 {
      var s', x := s[..|s| - 1], s[|s| - 1];
      assert s == s' + [x];
      SortByCountStable(s', k);
      InsertByCountStable(x, SortByCount(s'), k);
      FilterConcat(s', [x], HasCount(k));
    }
  }

  /** The columns of the permission table of `service`. */
  function FilteredRoles(roles: seq<Role>, service: string): (cols: seq<Role>)
    ensures NonIncreasing(cols)
    ensures multiset(cols) == multiset(SelectRoles(roles, service))
  {
    SortByCount(SelectRoles(roles, service))
  }

  /** The rows of the permission table of `service`: every permission some
      shown role includes, once, in ascending order. */
  function RelatedPermissions(roles: seq<Role>, service: string): (perms: seq<string>)
    ensures StrictlySorted(perms)
    ensures forall p :: p in perms <==> exists r :: r in roles && Shown(service, r) && p in r.includedPermissions
  {
    var cols := FilteredRoles(roles, service);
    assert forall r :: r in cols <==> r in multiset(cols);
    assert forall r :: r in SelectRoles(roles, service) <==> r in multiset(SelectRoles(roles, service));
    SortedUnion(cols)
  }

  /** Sorting the columns first does not change the rows: the union of the
      unsorted selection is the same list. */
  lemma RelatedPermissionsUnsorted(roles: seq<Role>, service: string)
    ensures RelatedPermissions(roles, service) == SortedUnion(SelectRoles(roles, service))
  {
    var sel := SelectRoles(roles, service);
    var cols := FilteredRoles(roles, service);
    assert forall r :: r in cols <==> r in multiset(cols);
    assert forall r :: r in sel <==> r in multiset(sel);
    SortedUnionBySet(cols, sel);
  }

  // ---------------------------------------------------------------------
  // Permission table: the check marks
  // ---------------------------------------------------------------------

  /** One row per permission, one cell per column: checked when the
      column's role includes the row's permission. */
  function Matrix(perms: seq<string>, cols: seq<Role>): (m: seq<seq<bool>>)
    ensures |m| == |perms|
    ensures forall i :: 0 <= i < |m| ==> |m[i]| == |cols|
    ensures forall i, j :: 0 <= i < |m| && 0 <= j < |cols| ==> (m[i][j] <==> perms[i] in cols[j].includedPermissions)
  {
    seq(|perms|, i requires 0 <= i < |perms| =>
      seq(|cols|, j requires 0 <= j < |cols| => perms[i] in cols[j].includedPermissions))
  }

  /** Every row of the permission table of `service` has a check. */
  lemma EveryRowChecked(roles: seq<Role>, service: string)
    ensures var m := Matrix(RelatedPermissions(roles, service), FilteredRoles(roles, service));
      forall i :: 0 <= i < |m| ==> true in m[i]
  {
    var perms, cols := RelatedPermissions(roles, service), FilteredRoles(roles, service);
    var m := Matrix(perms, cols);
    forall i | 0 <= i < |m|
      ensures true in m[i]
    {
      var j := RowChecked(roles, service, perms[i]);
      assert m[i][j];
    }
  }

  /** A column whose role includes a permission of the table. */
  lemma RowChecked(roles: seq<Role>, service: string, p: string) returns (j: int)
    requires p in RelatedPermissions(roles, service)
    ensures var cols := FilteredRoles(roles, service);
      0 <= j < |cols| && p in cols[j].includedPermissions
  {
    var r :| r in roles && Shown(service, r) && p in r.includedPermissions;
    j := ColumnOf(roles, service, r);
  }

  /** A shown role is one of the columns. */
  lemma ColumnOf(roles: seq<Role>, service: string, r: Role) returns (j: int)
    requires r in roles && Shown(service, r)
    ensures var cols := FilteredRoles(roles, service);
      0 <= j < |cols| && cols[j] == r
  {
    var cols := FilteredRoles(roles, service);
    assert r in SelectRoles(roles, service);
    assert r in multiset(SelectRoles(roles, service));
    assert r in multiset(cols);
    j :| 0 <= j < |cols| && cols[j] == r;
  }

  /** Every permission of every column has its row, and that row is checked
      in that column. */
  lemma EveryGrantChecked(roles: seq<Role>, service: string, j: int, p: string)
    requires var cols := FilteredRoles(roles, service);
      0 <= j < |cols| && p in cols[j].includedPermissions
    ensures var perms := RelatedPermissions(roles, service);
      var m := Matrix(perms, FilteredRoles(roles, service));
      p in perms && m[IndexOf(perms, p)][j]
  {
    var cols := FilteredRoles(roles, service);
    assert cols[j] in multiset(cols);
    assert cols[j] in SelectRoles(roles, service);
  }

  /** `name.replace(prefix, "")` with a plain-string pattern. */
  function Strip(name: string, prefix: string): (short: string)
    ensures StartsWith(name, prefix) ==> prefix + short == name
    ensures |name| < |prefix| ==> short == name
  {
    StripFacts(name, prefix);
    RemoveFirst(name, prefix)
  }

  lemma StripFacts(name: string, prefix: string)
    ensures StartsWith(name, prefix) ==> prefix + RemoveFirst(name, prefix) == name
    ensures |name| < |prefix| ==> RemoveFirst(name, prefix) == name
  {
    if StartsWith(name, prefix) {
      StripPrefix(name, prefix);
    } else if |name| < |prefix| {
      RemoveInShorter(name, prefix);
    }
  }

  /** The heading of a column: the role name with the first occurrence of
      `roles/<service>.` removed. */
  function ColumnHeader(service: string, r: Role): (header: string)
    ensures InService(r, service) ==> ServicePrefix(service) + header == r.name
  {
    Strip(r.name, ServicePrefix(service))
  }

  /** For "project", `roles/project.` is longer than every project-level
      name, so the headings are the full role names. */
  lemma ProjectHeadersUnchanged(r: Role)
    requires IsSpecial(r)
    ensures ColumnHeader(ProjectService, r) == r.name
  {
    assert |r.name| < |ServicePrefix(ProjectService)|;
  }

  // ---------------------------------------------------------------------
  // Service table: the services
  // ---------------------------------------------------------------------

  /** `name.split("/")[1].split(".")[0]`: the text after the first `/`, up
      to the next `/` or `.`. Without a `/` the first split has no second
      part and the view throws; that is `None` here. */
  function ServiceOf(name: string): (svc: Option<string>)
    ensures svc.None? <==> '/' !in name
    ensures svc.Some? ==>
      var rest := name[IndexOf(name, '/') + 1..];
      && '/' !in svc.value && '.' !in svc.value
      && StartsWith(rest, svc.value)
      && (|svc.value| == |rest| || rest[|svc.value|] == '/' || rest[|svc.value|] == '.')
  {
    if '/' !in name then None
    else
      var rest := After(name, '/');
      var segment := Before(rest, '/');
      var svc := Before(segment, '.');
      assert forall i :: 0 <= i < |svc| ==> svc[i] == segment[i];
      Some(svc)
  }

  /** `ServiceOf` inverts `ServicePrefix`: a name `roles/<svc>.…` yields
      `svc` whenever `svc` itself has no `/` or `.`. */
  lemma ServiceOfPrefixed(name: string, svc: string)
    requires '/' !in svc && '.' !in svc
    requires StartsWith(name, ServicePrefix(svc))
    ensures ServiceOf(name) == Some(svc)
  {
    var prefix := ServicePrefix(svc);
    assert name[..|prefix|] == prefix;
    assert name[..6] == prefix[..6] == RolesPrefix;
    assert name[5] == '/';
    assert IndexOf(name, '/') == 5;
    var rest := name[6..];
    var v := ServiceOf(name).value;
    assert rest[..|svc| + 1] == name[6..|prefix|] == prefix[6..] == svc + ".";
    FirstSegment(rest, v, svc);
  }

  /** A segment that ends at the first `/` or `.` is the `svc` that a
      following `.` delimits, when `svc` has neither character. */
  lemma FirstSegment(rest: string, v: string, svc: string)
    requires '/' !in v && '.' !in v && StartsWith(rest, v)
    requires |v| == |rest| || rest[|v|] == '/' || rest[|v|] == '.'
    requires '/' !in svc && '.' !in svc && StartsWith(rest, svc + ".")
    ensures v == svc
  {
    assert rest[|svc|] == '.';
    if |v| < |svc| {
      assert false;
    } else if |svc| < |v| {
      assert false;
    }
  }

  /** `map(role => <service of role.name>)`: the service of every role in
      order, or `None` as soon as one name has no `/`. */
  function ServiceNames(roles: seq<Role>): (names: Option<seq<string>>)
    ensures names.None? <==> exists r :: r in roles && '/' !in r.name
    ensures names.Some? ==> |names.value| == |roles|
    ensures names.Some? ==> forall i :: 0 <= i < |roles| ==> ServiceOf(roles[i].name) == Some(names.value[i])
    decreases |roles|
  {
    if |roles| == 0 then Some([])
    else
      var rs, r := roles[..|roles| - 1], roles[|roles| - 1];
      assert roles == rs + [r];
      var prev, svc := ServiceNames(rs), ServiceOf(r.name);
      if prev.Some? && svc.Some? then Some(prev.value + [svc.value]) else None
  }

  /** Keeps the roles that are not project-level. */
  function NotSpecial(): Role -> bool {
    r => !IsSpecial(r)
  }

  /** The services of the non-project-level roles, each once, in order of
      first appearance; `None` when some such role name has no `/`. */
  function ServicesExceptProject(roles: seq<Role>): (sep: Option<seq<string>>)
    ensures sep.None? <==> exists r :: r in roles && !IsSpecial(r) && '/' !in r.name
    ensures sep.Some? ==> NoDup(sep.value)
  {
    match ServiceNames(Filter(roles, NotSpecial()))
    case None => None
    case Some(ns) => Some(Uniq(ns))
  }

  /** The services listed are exactly the services of the roles that are
      not project-level. */
  lemma ServicesExceptProjectMembers(roles: seq<Role>, svc: string)
    requires ServicesExceptProject(roles).Some?
    ensures svc in ServicesExceptProject(roles).value <==>
      exists r :: r in roles && !IsSpecial(r) && ServiceOf(r.name) == Some(svc)
  {
    var others := Filter(roles, NotSpecial());
    var ns := ServiceNames(others).value;
    assert ServicesExceptProject(roles).value == Uniq(ns);
    ServiceNamesMembers(others, svc);
  }

  lemma ServiceNamesMembers(roles: seq<Role>, svc: string)
    requires ServiceNames(roles).Some?
    ensures svc in ServiceNames(roles).value <==> exists r :: r in roles && ServiceOf(r.name) == Some(svc)
  {
    var ns := ServiceNames(roles).value;
    if svc in ns {
      var i :| 0 <= i < |ns| && ns[i] == svc;
      ServiceNamesAt(roles, i);
    }
    if r :| r in roles && ServiceOf(r.name) == Some(svc) {
      var i :| 0 <= i < |roles| && roles[i] == r;
      ServiceNamesAt(roles, i);
    }
  }

  lemma ServiceNamesAt(roles: seq<Role>, i: int)
    requires ServiceNames(roles).Some? && 0 <= i < |roles|
    ensures roles[i] in roles
    ensures ServiceOf(roles[i].name) == Some(ServiceNames(roles).value[i])
  {
  }

  /** `["project", ...servicesExceptProject].sort()`. */
  function Services(roles: seq<Role>): (services: Option<seq<string>>)
    ensures services.None? <==> ServicesExceptProject(roles).None?
    ensures services.Some? ==>
      && Sorted(services.value)
      && ProjectService in services.value
      && multiset(services.value) == multiset{ProjectService} + multiset(ServicesExceptProject(roles).value)
  {
    match ServicesExceptProject(roles)
    case None => None
    case Some(sep) =>
      var services := Sort([ProjectService] + sep);
      assert ProjectService in multiset(services);
      Some(services)
  }

  /** Unless some other role's service is also named "project", every
      service is listed exactly once, in ascending order. */
  lemma ServicesStrictlySorted(roles: seq<Role>)
    requires ServicesExceptProject(roles).Some?
    requires ProjectService !in ServicesExceptProject(roles).value
    ensures StrictlySorted(Services(roles).value)
  {
    var sep := ServicesExceptProject(roles).value;
    assert Services(roles).value == Sort([ProjectService] + sep);
    PrependNoDup(ProjectService, sep);
  }

  /** "project" is not always listed once: a role `roles/project.x` that
      is not project-level contributes a second "project". */
  lemma ProjectMayRepeat()
    ensures Services([Role("roles/project.x", "GA", [])]) == Some([ProjectService, ProjectService])
  {
    var r := Role("roles/project.x", "GA", []);
    assert !IsSpecial(r);
    assert ServiceOf(r.name) == Some(ProjectService) by {
      assert StartsWith(r.name, ServicePrefix(ProjectService));
      ServiceOfPrefixed(r.name, ProjectService);
    }
    SingleRoleServices(r);
    var services := Sort([ProjectService, ProjectService]);
    TwoEqual(services, ProjectService);
  }

  /** One role that is not project-level contributes its own service. */
  lemma SingleRoleServices(r: Role)
    requires !IsSpecial(r) && ServiceOf(r.name).Some?
    ensures ServicesExceptProject([r]) == Some([ServiceOf(r.name).value])
  {
    FilterKeepsAll([r], NotSpecial());
    var rs := [r][..0];
    assert rs == [];
    assert ServiceNames(rs) == Some([]);
    assert ServiceNames([r]) == Some(ServiceNames(rs).value + [ServiceOf(r.name).value]);
    assert Uniq([ServiceOf(r.name).value]) == [ServiceOf(r.name).value] by {
      assert [ServiceOf(r.name).value][..0] == [];
    }
  }

  lemma TwoEqual(s: seq<string>, x: string)
    requires multiset(s) == multiset{x, x}
    ensures s == [x, x]
  {
    assert |s| == 2 by {
      assert |multiset(s)| == 2;
    }
    assert s[0] in multiset(s) && s[1] in multiset(s);
  }

  // ---------------------------------------------------------------------
  // Service table: the rows
  // ---------------------------------------------------------------------

  /** One row of the service table. */
  datatype ServiceRow = ServiceRow(service: string, count: nat, roleNames: seq<string>)

  /** The short names of the project-level roles. */
  const ProjectRoleNames: seq<string> := ["owner", "editor", "viewer", "browser"]

  /** `names.map(n => n.replace(prefix, ""))`. */
  function StripEach(names: seq<string>, prefix: string): (short: seq<string>)
    ensures |short| == |names|
    ensures forall i :: 0 <= i < |names| && StartsWith(names[i], prefix) ==> prefix + short[i] == names[i]
  {
    seq(|names|, i requires 0 <= i < |names| => Strip(names[i], prefix))
  }

  /** A prefixed name stripped of its prefix gives back what followed it. */
  lemma StripAfterPrefix(prefix: string, rest: string)
    ensures Strip(prefix + rest, prefix) == rest
  {
    var s := Strip(prefix + rest, prefix);
    assert StartsWith(prefix + rest, prefix) by {
      assert (prefix + rest)[..|prefix|] == prefix;
    }
    assert (prefix + s)[|prefix|..] == s;
    assert (prefix + rest)[|prefix|..] == rest;
  }

  /** Keeps the roles named `roles/<service>.…`. */
  function InServiceOf(service: string): Role -> bool {
    r => InService(r, service)
  }

  function Names(roles: seq<Role>): (names: seq<string>)
    ensures |names| == |roles| && forall i :: 0 <= i < |roles| ==> names[i] == roles[i].name
  {
    seq(|roles|, i requires 0 <= i < |roles| => roles[i].name)
  }

  /** The role names of a row: the four project-level names without
      `roles/` for "project", otherwise the names of the roles of the
      service, in input order, without `roles/<service>.`. */
  function RoleNamesOf(roles: seq<Role>, service: string): seq<string> {
    if service == ProjectService then StripEach(SpecialRoleNames, RolesPrefix)
    else StripEach(Names(Filter(roles, InServiceOf(service))), ServicePrefix(service))
  }

  /** The row of `service`; its count is the number of names listed. */
  function RowFor(roles: seq<Role>, service: string): (row: ServiceRow)
    ensures row.service == service && row.count == |row.roleNames|
  {
    var names := RoleNamesOf(roles, service);
    ServiceRow(service, |names|, names)
  }

  /** The service table: one row per listed service, in the listed order;
      `None` when the service list cannot be computed. */
  function ServiceTable(roles: seq<Role>): (rows: Option<seq<ServiceRow>>)
    ensures rows.None? <==> Services(roles).None?
    ensures rows.Some? ==>
      && |rows.value| == |Services(roles).value|
      && forall i :: 0 <= i < |rows.value| ==> rows.value[i] == RowFor(roles, Services(roles).value[i])
  {
    match Services(roles)
    case None => None
    case Some(services) => Some(seq(|services|, i requires 0 <= i < |services| => RowFor(roles, services[i])))
  }

  /** The "project" row lists owner, editor, viewer and browser, with count
      4, whatever the roles. */
  lemma ProjectRowFixed(roles: seq<Role>)
    ensures RowFor(roles, ProjectService) == ServiceRow(ProjectService, 4, ProjectRoleNames)
  {
    ProjectNamesStripped();
    assert RoleNamesOf(roles, ProjectService) == ProjectRoleNames;
  }

  lemma ProjectNamesStripped()
    ensures StripEach(SpecialRoleNames, RolesPrefix) == ProjectRoleNames
  {
    SpecialNamesSpelled();
    var short := StripEach(SpecialRoleNames, RolesPrefix);
    forall i | 0 <= i < 4
      ensures short[i] == ProjectRoleNames[i]
    {
      StripAfterPrefix(RolesPrefix, ProjectRoleNames[i]);
    }
  }

  /** Each project-level name is `roles/` followed by its short name. */
  lemma SpecialNamesSpelled()
    ensures forall i :: 0 <= i < 4 ==> SpecialRoleNames[i] == RolesPrefix + ProjectRoleNames[i]
  {
    assert SpecialRoleNames[0] == RolesPrefix + ProjectRoleNames[0];
    assert SpecialRoleNames[1] == RolesPrefix + ProjectRoleNames[1];
    assert SpecialRoleNames[2] == RolesPrefix + ProjectRoleNames[2];
    assert SpecialRoleNames[3] == RolesPrefix + ProjectRoleNames[3];
  }

  /** Any other row lists the roles named `roles/<service>.…`, in input
      order, each by the rest of its name; its count is how many there are. */
  lemma ServiceRowNames(roles: seq<Role>, service: string)
    requires service != ProjectService
    ensures var matching, row := Filter(roles, InServiceOf(service)), RowFor(roles, service);
      && IsSubsequence(matching, roles)
      && (forall r :: r in matching <==> r in roles && InService(r, service))
      && row.count == |matching|
      && forall i :: 0 <= i < |matching| ==> ServicePrefix(service) + row.roleNames[i] == matching[i].name
  {
    var matching := Filter(roles, InServiceOf(service));
    FilterOrdered(roles, InServiceOf(service));
    var names := Names(matching);
    assert RoleNamesOf(roles, service) == StripEach(names, ServicePrefix(service));
    forall i | 0 <= i < |matching|
      ensures StartsWith(names[i], ServicePrefix(service))
    {
      assert matching[i] in matching;
    }
  }

  /** With no roles at all, the table has the "project" row alone. */
  lemma ServiceTableEmpty()
    ensures ServiceTable([]) == Some([ServiceRow(ProjectService, 4, ProjectRoleNames)])
  {
    assert Filter([], NotSpecial()) == [];
    assert ServiceNames([]) == Some([]);
    assert ServicesExceptProject([]) == Some([]);
    var services := Services([]).value;
    assert |services| == 1 by {
      assert |multiset(services)| == 1;
    }
    assert services[0] in multiset(services);
    assert services == [ProjectService];
    var rows := ServiceTable([]).value;
    assert |rows| == 1 && rows[0] == RowFor([], ProjectService);
    ProjectRowFixed([]);
    assert rows == [ServiceRow(ProjectService, 4, ProjectRoleNames)];
  }

  /** No project-level name contains a `.`. */
  lemma SpecialNamesHaveNoDot(name: string)
    requires name in SpecialRoleNames
    ensures '.' !in name
  {
  }

  /** Every role named `roles/<svc>.<id>` (for a service other than
      "project" whose name has no `/` or `.`) is listed as `id` in the row
      of `svc`. */
  lemma WellFormedRoleListed(roles: seq<Role>, r: Role, svc: string, id: string)
    requires r in roles && r.name == ServicePrefix(svc) + id
    requires '/' !in svc && '.' !in svc && svc != ProjectService
    requires ServiceTable(roles).Some?
    ensures var rows := ServiceTable(roles).value;
      exists i :: 0 <= i < |rows| && rows[i].service == svc && id in rows[i].roleNames
  {
    var prefix := ServicePrefix(svc);
    assert StartsWith(r.name, prefix) by {
      assert r.name[..|prefix|] == prefix;
    }
    assert !IsSpecial(r) by {
      assert r.name[|prefix| - 1] == '.';
      if IsSpecial(r) {
        SpecialNamesHaveNoDot(r.name);
      }
    }
    ServiceOfPrefixed(r.name, svc);
    ServicesExceptProjectMembers(roles, svc);
    var services := Services(roles).value;
    assert svc in multiset(services);
    var i :| 0 <= i < |services| && services[i] == svc;
    var rows := ServiceTable(roles).value;
    assert rows[i] == RowFor(roles, svc);
    ListedInRow(roles, r, svc, id);
  }

  lemma ListedInRow(roles: seq<Role>, r: Role, svc: string, id: string)
    requires r in roles && r.name == ServicePrefix(svc) + id && svc != ProjectService
    ensures id in RowFor(roles, svc).roleNames
  {
    var prefix := ServicePrefix(svc);
    var matching := Filter(roles, InServiceOf(svc));
    assert StartsWith(r.name, prefix) by {
      assert r.name[..|prefix|] == prefix;
    }
    ServiceRowNames(roles, svc);
    var j :| 0 <= j < |matching| && matching[j] == r;
    var names := RowFor(roles, svc).roleNames;
    assert prefix + names[j] == prefix + id;
    assert names[j] == id by {
      assert (prefix + names[j])[|prefix|..] == names[j];
      assert (prefix + id)[|prefix|..] == id;
    }
  }
}
