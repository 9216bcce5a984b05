# GCP IAM explorer: role diff and service browser, modelled in Dafny

gcp-iam-explorer is a web app for browsing Google Cloud IAM roles. Each role
has a name (`roles/<service>.<id>`, or one of the four project-level roles
`roles/owner`, `roles/editor`, `roles/viewer` and `roles/browser`), a launch
stage, and the list of permissions it includes. This project lifts the pure
list logic out of the app's two React views. It models that logic as
functions over an immutable `Role` datatype and proves what the views rely
on.

- **Compare view** (`Compare.tsx`):
  - `makeDiff` walks the right role's permissions in order. A permission
    that still occurs in the left list moves to `common`, and its first
    occurrence is removed from the left copy. Any other permission goes to
    `rightOnly`. Whatever stays on the left is `leftOnly`.
  - The "ALL PERMISSIONS" pseudo-role is the sorted, de-duplicated union of
    every role's permissions. It is offered ahead of the real roles.
  - The left-only / right-only table is kept as written, including its
    lodash `_.range(0, n)` row count (one row short of the longer column,
    and a single placeholder row when both sides are empty).
- **Browse view** (`Browse.tsx`):
  - The permission table of a service selects its roles and sorts them
    stably, most permissions first. Its rows are the sorted union of their
    permissions, with a check mark where a role includes a permission.
  - The service table extracts each role's service, prepends "project",
    sorts the services, and lists each service's role names and their count.

Modules:

- `Seqs`: optional values, duplicate-freedom, subsequences (by index
  embedding), interleavings, and the array operations the views use.
  These are `filter`, `indexOf`, `splice(i, 1)` and lodash `uniq`.
- `Strings`: the order of JavaScript's default `sort()`, an insertion sort
  over it, `startsWith`, first-occurrence `replace(pat, "")`, the text
  before the first `c` (`split(c)[0]`) and the text after it. The view's
  `split("/")[1]` is the text after the first `/` up to the next one.
- `Roles`: the `Role` datatype and the sorted union of permissions.
- `Compare`: `makeDiff` as a fold (`DiffOf`) and as the original loop
  (`MakeDiff`), "ALL PERMISSIONS", and the comparison table rows.
- `Browse`: the permission table and the service table.

What `makeDiff` computes, counting multiplicities:

- `leftOnly` is `left - right` as multisets;
- `rightOnly` is `right - left`;
- `common` is their intersection;
- `leftOnly` keeps the order of `left`;
- `right` is an interleaving of `common` and `rightOnly`.

When a permission repeats, these facts leave open which of its copies end
up where. `Compare.DiffOfGreedy` pins that down, so the result is
characterised exactly. Each permission of `right` takes the earliest copy
still unmatched on the left. So `leftOnly` is `left` without its first `n`
copies of a permission that `right` holds `n` times. `common` holds the copies
of `right` reached while the left still had one to spare, and `rightOnly`
holds the rest of `right`. When neither list repeats a permission, the diff
is the plain set-difference and intersection filters.

The model follows the code in two places where one might expect otherwise:

- "project" is not always listed once. A role `roles/project.x` that is not
  project-level adds a second "project" (`Browse.ProjectMayRepeat`).
- The "project" row always lists owner, editor, viewer and browser with
  count 4, even when no project-level role is present.

## Model

| member | source | states |
|---|---|---|
| Compare.MakeDiff | packages/web/src/Compare.tsx:190-217 | no diff exactly when either role is absent; otherwise the loop with `indexOf`/`splice` computes the fold `DiffOf`, its `leftOnly` and `common` together make up the left list and its `rightOnly` and `common` the right list (as multisets), `leftOnly` keeps the left order, and the right list is an interleaving of `common` and `rightOnly` |
| Compare.DiffOfGreedy | packages/web/src/Compare.tsx:198-210 | the diff equals independent reference lists, repeats included: `leftOnly` is left without the first copies right matches, `common` is the copies of right that the left could still match, `rightOnly` is the remaining copies of right |
| Seqs.DropFirstCopiesMembers | packages/web/src/Compare.tsx:203-206 | a value survives dropping its first copies exactly when the list holds more copies than are dropped |
| Seqs.DropFirstCopiesAbsent | packages/web/src/Compare.tsx:203-206 | dropping one more copy of a value that no longer survives changes nothing |
| Seqs.DropOneMoreCopy | packages/web/src/Compare.tsx:203-206 | removing the first surviving copy of a value (`indexOf` + `splice`) is the same as dropping one more of its copies from the start |
| Seqs.DropNothing | packages/web/src/Compare.tsx:198 | with nothing dropped, the list is unchanged (the left list the loop starts from) |
| Compare.DiffOfSpec | packages/web/src/Compare.tsx:198-210 | counted with multiplicity, `leftOnly` = left minus right, `rightOnly` = right minus left, `common` = their intersection; `leftOnly` is an order-preserving subsequence of left; right is an interleaving of `common` and `rightOnly` |
| Compare.DiffSizes | packages/web/src/Compare.tsx:202-209 | the length of left is that of `leftOnly` plus that of `common`, the length of right is that of `rightOnly` plus that of `common`, so `common` is no longer than either list |
| Compare.DiffOfSelf | packages/web/src/Compare.tsx:198-215 | a role diffed against itself has empty one-sided parts and `common` equal to its own permission list, duplicates included |
| Compare.DiffSwap | packages/web/src/Compare.tsx:198-210 | swapping the two roles swaps `leftOnly` and `rightOnly` and keeps `common`, as multisets |
| Compare.DiffOfDistinct | packages/web/src/Compare.tsx:202-209 | for duplicate-free lists: `leftOnly` is left without the right's elements, `rightOnly` is right without the left's, `common` is right's elements that the left has, each in list order |
| Compare.WithinWithoutMembers | packages/web/src/Compare.tsx:202-209 | the set-operation reference lists contain exactly the elements in (resp. not in) the other list |
| Compare.WithinWithoutOrdered | packages/web/src/Compare.tsx:202-209 | the set-operation reference lists keep the order of the list they filter |
| Compare.RemoveFromWithout | packages/web/src/Compare.tsx:203-206 | for a duplicate-free left list, removing the first occurrence of a new right permission from what is left equals filtering it out |
| Compare.AllPermissionsRole | packages/web/src/Compare.tsx:36-44 | named "ALL PERMISSIONS" with empty stage; its permissions are strictly sorted and are exactly those some role includes |
| Compare.RolesPlusAll | packages/web/src/Compare.tsx:35-46 | one more option than roles: the pseudo-role first, then the roles unchanged and in order |
| Compare.AllPermissionsCoversOptions | packages/web/src/Compare.tsx:35-46 | every permission of every option is a permission of "ALL PERMISSIONS" |
| Compare.DiffAgainstSuperset | packages/web/src/Compare.tsx:198-210 | a duplicate-free list diffed against a strictly sorted superset has no left-only part, `common` equal to the list sorted, and a strictly sorted `rightOnly` holding exactly the rest |
| Compare.DiffAgainstAllPermissions | packages/web/src/Compare.tsx:35-46 | a duplicate-free role diffed against "ALL PERMISSIONS": nothing left-only, `common` is the role's permissions sorted, `rightOnly` is strictly sorted and holds exactly the permissions other roles grant that this role lacks |
| Compare.SubsequenceStrictlySorted | packages/web/src/Compare.tsx:39-43 | dropping elements from a strictly sorted list leaves it strictly sorted |
| Compare.Range | packages/web/src/Compare.tsx:134-137 | lodash 4 `_.range(0, end)`: `end` entries 0, 1, … when `end` is not negative, and `-end` entries 0, -1, … when it is, so `_.range(0, -1)` is `[0]` |
| Compare.ComparisonRows | packages/web/src/Compare.tsx:134-147 | one row per index of `_.range(0, max(left-only count, right-only count) - 1)`; the row for index i shows the i-th left-only and right-only entries, or "- none -" for index 0 when an entry is missing or empty |
| Compare.ComparisonRowsOneShort | packages/web/src/Compare.tsx:134-147 | as written: with nothing on either side the table is one placeholder row ("- none -" in both columns); with one entry on the longer side it is empty; with m ≥ 2 entries it has m - 1 rows, so the last entry of the longer column is never shown |
| Roles.Flatten | packages/web/src/Compare.tsx:40 | the flattened list contains exactly the permissions some role includes |
| Roles.SortedUnion | packages/web/src/Compare.tsx:39-43 | `flatMap` + `uniq` + `sort` is strictly sorted and contains exactly the permissions some role includes |
| Roles.SortedUnionBySet | packages/web/src/Browse.tsx:48-52 | the union depends only on which roles are present, not on their order or repetition |
| Seqs.IndexOf | packages/web/src/Compare.tsx:203 | -1 exactly when absent; otherwise the position of the first occurrence |
| Seqs.RemoveAt | packages/web/src/Compare.tsx:206 | `splice(i, 1)` shortens by one and removes one copy of the element at i |
| Seqs.RemoveAtKeepsSubsequence | packages/web/src/Compare.tsx:206 | removing an element from a subsequence leaves a subsequence |
| Seqs.Uniq | packages/web/src/Compare.tsx:41 | duplicate-free, same elements, a subsequence of the input, and ordered by first occurrence in the input |
| Seqs.Filter | packages/web/src/Browse.tsx:44-45 | keeps exactly the elements that pass |
| Seqs.FilterExact | packages/web/src/Browse.tsx:44-45 | keeps each passing element with its multiplicity, drops the others, and keeps the input order |
| Seqs.FilterConcat | packages/web/src/Browse.tsx:44-45 | filtering distributes over concatenation |
| Seqs.InterleavingSplits | packages/web/src/Compare.tsx:202-209 | an interleaving splits the whole: lengths and multisets add up, and both parts keep its order |
| Seqs.InterleavingWithEmpty | packages/web/src/Compare.tsx:202-209 | interleaving with nothing gives back the list itself |
| Strings.LessEqTotal | packages/web/src/Compare.tsx:42 | any two strings are comparable in the default sort order |
| Strings.LessEqAntisym | packages/web/src/Compare.tsx:42 | two strings that each sort no later than the other are equal |
| Strings.LessEqTrans | packages/web/src/Compare.tsx:42 | the default sort order is transitive |
| Strings.Sort | packages/web/src/Compare.tsx:42 | the result is sorted and a permutation of the input, and strictly sorted when the input has no duplicates |
| Strings.StrictlySortedUnique | packages/web/src/Compare.tsx:41-42 | two strictly sorted lists with the same elements are equal |
| Strings.Find | packages/web/src/Browse.tsx:64 | -1 exactly when the pattern does not occur; otherwise the first position where it occurs |
| Strings.RemoveFirst | packages/web/src/Browse.tsx:64 | `replace(pat, "")`: without an occurrence the string is unchanged; otherwise only the first occurrence is cut out |
| Strings.StripPrefix | packages/web/src/Browse.tsx:121 | removing a prefix the name starts with leaves exactly the rest of the name |
| Strings.RemoveInShorter | packages/web/src/Browse.tsx:64 | a pattern longer than the string is never removed |
| Strings.AfterSplits | packages/web/src/Browse.tsx:95 | the name is the text before its first `c`, then that `c`, then the text after it |
| Strings.Before | packages/web/src/Browse.tsx:95 | `split(c)[0]` is a prefix of the string without `c`, ending at the first `c` or at the end |
| Browse.SelectRoles | packages/web/src/Browse.tsx:43-45 | for "project", exactly the roles with a project-level name; otherwise exactly the roles named `roles/<service>.…` |
| Browse.SelectRolesExact | packages/web/src/Browse.tsx:43-45 | the selection keeps input order and multiplicities |
| Browse.InsertByCount | packages/web/src/Browse.tsx:46 | inserting into a list ordered by decreasing count keeps it ordered and adds exactly the new role |
| Browse.SortByCount | packages/web/src/Browse.tsx:46 | the sorted roles are a permutation of the input with non-increasing permission counts |
| Browse.SortByCountStable | packages/web/src/Browse.tsx:46 | the sort is stable: roles with the same count keep their input order |
| Browse.FilteredRoles | packages/web/src/Browse.tsx:43-46 | the columns are the selection, permuted into non-increasing count order |
| Browse.RelatedPermissions | packages/web/src/Browse.tsx:48-52 | the rows are strictly sorted and are exactly the permissions some selected role includes |
| Browse.RelatedPermissionsUnsorted | packages/web/src/Browse.tsx:48-52 | the rows do not depend on the column sort |
| Browse.Matrix | packages/web/src/Browse.tsx:71-78 | cell (i, j) is checked exactly when role j includes permission i |
| Browse.EveryRowChecked | packages/web/src/Browse.tsx:71-78 | every row of the permission table has a check |
| Browse.EveryGrantChecked | packages/web/src/Browse.tsx:71-78 | every permission of every column has a row, checked in that column |
| Browse.Strip | packages/web/src/Browse.tsx:121 | a name that starts with the prefix becomes the rest of the name; a name shorter than the prefix is unchanged |
| Browse.ColumnHeader | packages/web/src/Browse.tsx:64 | the heading of a role of the service is the rest of its name after `roles/<service>.` |
| Browse.ProjectHeadersUnchanged | packages/web/src/Browse.tsx:64 | in the "project" table the headings are the full role names |
| Browse.ServiceOf | packages/web/src/Browse.tsx:95 | no service exactly when the name has no `/`; otherwise the text after the first `/`, free of `/` and `.`, ending at the next `/` or `.` or at the end |
| Browse.ServiceOfPrefixed | packages/web/src/Browse.tsx:95 | the service of `roles/<svc>.…` is `svc` when `svc` has no `/` or `.` |
| Browse.ServiceNames | packages/web/src/Browse.tsx:95 | fails exactly when some name has no `/`; otherwise gives each role's service, position by position |
| Browse.ServicesExceptProject | packages/web/src/Browse.tsx:93-97 | fails exactly when some non-project-level role name has no `/`; otherwise duplicate-free |
| Browse.ServicesExceptProjectMembers | packages/web/src/Browse.tsx:93-97 | lists exactly the services of the roles that are not project-level |
| Browse.Services | packages/web/src/Browse.tsx:99 | sorted, contains "project", and is "project" plus the other services as a multiset |
| Browse.ServicesStrictlySorted | packages/web/src/Browse.tsx:99 | unless another role's service is itself "project", every service is listed exactly once |
| Browse.ProjectMayRepeat | packages/web/src/Browse.tsx:93-99 | a single role `roles/project.x` makes "project" appear twice |
| Browse.StripEach | packages/web/src/Browse.tsx:116-118 | same length; each prefixed name becomes the rest of the name |
| Browse.RowFor | packages/web/src/Browse.tsx:114-130 | a row names its service, and its count is the number of role names it lists |
| Browse.ServiceTable | packages/web/src/Browse.tsx:113-134 | fails exactly when the service list fails; otherwise one row per listed service, in order |
| Browse.ProjectRowFixed | packages/web/src/Browse.tsx:114-118 | the "project" row lists owner, editor, viewer and browser with count 4, whatever the roles |
| Browse.ServiceRowNames | packages/web/src/Browse.tsx:119-121 | any other row lists the matching roles in input order, each by the rest of its name after `roles/<service>.`, and counts them |
| Browse.ServiceTableEmpty | packages/web/src/Browse.tsx:93-118 | with no roles the table is the "project" row alone |
| Browse.WellFormedRoleListed | packages/web/src/Browse.tsx:93-121 | when the service table exists, a role named `roles/<svc>.<id>`, for a service other than "project" whose name has no `/` or `.`, is listed as `id` in the row of `svc` |
| Browse.ListedInRow | packages/web/src/Browse.tsx:119-121 | for a service other than "project", a role named `roles/<svc>.<id>` appears as `id` among the names of the row of `svc` |

## Left out

- React, material-ui, Helmet, routing and `makeStyles` are presentation
  only. The route parameter `service` is a plain argument.
- `useState`/`useEffect` wiring is left out: `MakeDiff` is a function of its
  two inputs.
- Autocomplete `filterOptions`, the default-role lookups and the find-by-name
  input handler are left out; they are UI selection plumbing.
- The `Role` type's definition file (`./types`) is not part of this model.
  `Role` is declared here with the three fields the views read.
- String order: JavaScript compares UTF-16 code units, while the model
  compares Dafny characters lexicographically. The two differ only for
  characters outside the Basic Multilingual Plane.
- A role name without `/` makes `split("/")[1].split(".")` throw in the
  browser. The model returns `None` for the whole service list and table.
  Rendering of the error is not modelled.
- React `key` warnings when "project" is listed twice are not modelled.
- `relatedRoleNames.join(", ")` is not modelled; the row keeps the list.
- Roles.Flatten: states only which permissions occur, not their order or
  multiplicity, because only the de-duplicated, sorted union is used.
- Compare.ComparisonRows: kept as written, without a corrected version: one
  row short of the longer column, and a single placeholder row when both
  one-sided lists are empty.
- Compare.DiffAgainstAllPermissions: stated for a role whose permission list
  has no repeats, which the data is assumed but not checked to satisfy. A
  repeated permission's extra copies stay left-only; `Compare.DiffOfGreedy`
  covers that case.
- Strings.RemoveFirst: models `replace` with an empty replacement only, the
  one use the views make; JavaScript's `$` patterns in a replacement string
  never arise.
