# Role membership and Admin protection — a verified model

This project models the part of the task-and-team management system that
decides who holds which role and who belongs to which team:

- the role service (`RoleService`): the guards on creating, renaming and
  deleting roles; the reconciliation of the user–role join table from the
  role's side (`AssignUsersToRoleAsync`, `AssignUserToRoleAsync`) and from
  the user's side (`AssignRolesToUserAsync`); and the rule that the Admin
  role is never created, renamed, deleted, granted or taken away through
  these operations;
- the user-create command handler: the validator verdict, the password
  guard, and the sanitising of requested role names before they go to the
  identity store;
- the user-update command handler: the username lock, the password
  replacement, the profile overwrite and the reconciliation of the user's
  role names, with the same Admin rule;
- the team-assign command handler: the payload and team guards, and the
  bulk update that moves the named users into a team.

Layout, one module per file:

| file | module | contents |
|---|---|---|
| `common.dfy` | `Common` | the result envelope `Response<T>`, the validation step `Step<T>`, the command outcome `Outcome<T>` |
| `text.dfy` | `Text` | blankness, upper-casing (the store's name normalisation and the case-insensitive comparison), the letters-only pattern |
| `lists.dfy` | `Lists` | `List.Remove`, `Distinct`, `Where`, `Except` and the mutable list class `StringList` |
| `users.dfy` | `Users` | the request model `UserModel` (a class: handlers rewrite its role list) and the identity user `ApplicationUser` (a class: handlers overwrite its fields) |
| `roles.dfy` | `Roles` | the role guards, the join-table reconciliations as functions with their lemmas, and the class `RoleService` whose methods update the store in place |
| `user_create.dfy` | `UserCreate` | the create handler |
| `user_update.dfy` | `UserUpdate` | the update handler |
| `team_assign.dfy` | `TeamAssign` | the team-assign handler |

The identity store, the database and the validation library are not
modelled. Every answer they give becomes a parameter: `storeOk`, `createOk`,
`updateOk`, `removeOk`, `addOk`, `teamExists`, `found`. A handler returns the
arguments it would pass to the identity calls (`roleNames`, `removed`,
`added`), so the contracts can speak about them. `RoleService` holds the
tables it reads and writes: the roles by key, the user keys and the join
table as a set of `(user, role)` pairs. Saving the unit of work commits the
pending changes. `RoleService.Valid()` states the invariant the Admin rule
relies on: the Admin role exists, its key is the one cached at start-up, and
no other role has its normalised name. Every method preserves it.

## Model

| member | source | states |
|---|---|---|
| Lists.RemoveFirst | src/Infrastructure/Database/Users/RoleService.cs:359 | `List.Remove` shortens the list by one exactly when the element occurs |
| Lists.RemoveFirstBag | src/Application/UseCases/Users/Update/UserUpdateCommandHandler.cs:100 | `List.Remove(x)` takes exactly one `x` out of the multiset of elements |
| Lists.RemoveFirstLeaves | src/Application/UseCases/Users/Create/UserCreateCommandHandler.cs:75 | after `Remove(x)`, `x` is still present iff it occurred at least twice; the other elements are unchanged |
| Lists.RemoveFirstSubset | src/Application/UseCases/Users/Create/UserCreateCommandHandler.cs:75 | `List.Remove` only takes elements out: every element left was in the list |
| Lists.RemoveFirstKeepsNoDuplicates | src/Application/UseCases/Users/Create/UserCreateCommandHandler.cs:74-75 | `Remove` on a list without duplicates leaves a list without duplicates |
| Lists.Dedup | src/Application/UseCases/Users/Create/UserCreateCommandHandler.cs:74 | `Distinct` keeps the same elements and leaves no duplicates |
| Lists.NoDuplicatesBag | src/Application/UseCases/Users/Create/UserCreateCommandHandler.cs:74-75 | a distinct list holds each element at most once, so a single `Remove` after `Distinct` removes it entirely |
| Lists.FilterOut | src/Application/UseCases/Users/Update/UserUpdateCommandHandler.cs:104 | `Where(x => !excluded.Contains(x))` keeps exactly the elements not in `excluded` |
| Lists.Except | src/Application/UseCases/Users/Update/UserUpdateCommandHandler.cs:111 | `Except` yields the set difference, without duplicates |
| Lists.StringList.Add | src/Infrastructure/Database/Users/RoleService.cs:347 | `List.Add` appends in place |
| Lists.StringList.Remove | src/Infrastructure/Database/Users/RoleService.cs:359 | `List.Remove` drops the first occurrence in place and reports whether there was one |
| Text.IsBlank | src/Infrastructure/Database/Users/RoleService.cs:76 | the empty name is blank, and a blank name does not start with an English letter |
| Text.Upper | src/Infrastructure/Database/Users/RoleService.cs:39-44 | the normalised name has the same length, no lower-case letter, and every other character unchanged |
| Text.EqualsIgnoreCase | src/Infrastructure/Database/Users/RoleService.cs:84 | equal names compare equal, and names that compare equal have the same length |
| Text.MatchesLettersPattern | src/Infrastructure/Database/Users/RoleService.cs:92-97 | a match starts with an English letter, every run of English letters matches, and a match that is not letters only ends in a line feed |
| Text.FoldsToNonBlank | src/Infrastructure/Database/Users/RoleService.cs:76-90 | a name that upper-cases to a non-blank name is not blank, so the blank guard never hides the Admin guard |
| Roles.UpperOfAdmin | src/Infrastructure/Database/Users/RoleService.cs:43-44 | "Admin" normalises to "ADMIN", the constant the guards compare with |
| Roles.WithoutAdminSpellings | src/Application/UseCases/Users/Create/UserCreateCommandHandler.cs:75 | the case-insensitive filter keeps exactly the names that do not normalise to ADMIN |
| Roles.AddToRolesThrows | src/Application/UseCases/Users/Create/UserCreateCommandHandler.cs:77 | `AddToRolesAsync` walks the names in order, stops at a name already held, and throws only when a name resolves to no stored role |
| Roles.AddToRolesThrowsExactly | src/Application/UseCases/Users/Create/UserCreateCommandHandler.cs:77 | for names resolving to distinct roles, none of them held, the call throws iff some name resolves to no stored role |
| Roles.CreateRoleRejection | src/Infrastructure/Database/Users/RoleService.cs:74-98 | a refusal fails with payload false; a name let through is present, not blank and matches the letters pattern |
| Roles.CreateRoleAccepts | src/Infrastructure/Database/Users/RoleService.cs:74-98 | a role name reaches the store iff it is present, matches the letters pattern and does not fold to ADMIN |
| Roles.CreateRoleRefusesAdmin | src/Infrastructure/Database/Users/RoleService.cs:84-90 | every spelling of Admin, in any case, gets "Can not create Admin role" with the `role` error |
| Roles.CreateRoleAcceptsTrailingNewline | src/Infrastructure/Database/Users/RoleService.cs:92-98 | as written, "Editor\n" passes every guard |
| Roles.CreateRoleIntendedLettersOnly | src/Infrastructure/Database/Users/RoleService.cs:92-98 | with the pattern anchored at the true end, a name passes iff it is a non-empty run of English letters not folding to ADMIN |
| Roles.UpdateRoleRejection | src/Infrastructure/Database/Users/RoleService.cs:112-141 | a refusal fails with payload false; a rename let through has a name, and its role exists and is not Admin |
| Roles.UpdateRoleAccepts | src/Infrastructure/Database/Users/RoleService.cs:112-141 | a rename goes through iff the new name is present and does not fold to ADMIN, and the role exists and is not Admin |
| Roles.DeleteRoleRejection | src/Infrastructure/Database/Users/RoleService.cs:151-177 | a refusal fails with payload false; a deletion is let through iff the role exists and is not Admin |
| Roles.DeleteRoleAdminMessage | src/Infrastructure/Database/Users/RoleService.cs:151-177 | deleting Admin is refused with "Can not update this role", "Can not delete this role" is never produced, and exactly the existing non-Admin roles can be deleted |
| Roles.DeleteRoleIntendedMessage | src/Infrastructure/Database/Users/RoleService.cs:168-176 | with the duplicated guard removed, deleting Admin gets "Can not delete this role"; the roles that can be deleted are the same |
| Roles.AssignToRoleRejection | src/Infrastructure/Database/Users/RoleService.cs:209-226 | role-side assignment is let through iff the role exists and is not Admin; a refusal fails with payload false and one error |
| Roles.ReassignUsers | src/Infrastructure/Database/Users/RoleService.cs:229-258 | the new table holds only old rows and rows of the role for requested users, and keeps every other role's rows and every requested user's row |
| Roles.AssignToRoleAccepts | src/Infrastructure/Database/Users/RoleService.cs:209-226 | role-side assignment is open exactly for the existing roles other than Admin |
| Roles.ReassignUsersHolders | src/Infrastructure/Database/Users/RoleService.cs:229-258 | after `AssignUsersToRoleAsync` the role's holders are exactly the distinct requested users, existing or not |
| Roles.ReassignUsersFrame | src/Infrastructure/Database/Users/RoleService.cs:229-240 | the rows of every other role are untouched |
| Roles.ReassignUsersIdempotent | src/Infrastructure/Database/Users/RoleService.cs:236-256 | repeating the call deletes nothing, inserts nothing and leaves the table unchanged |
| Roles.ReassignUsersExample | src/Infrastructure/Database/Users/RoleService.cs:236-256 | holders {U1, U2} and request [U2, U3]: U1's row is deleted, U3's inserted, holders {U2, U3} |
| Roles.ReassignRolesResult | src/Infrastructure/Database/Users/RoleService.cs:363-385 | the user's roles become (held ∩ requested) ∪ ((requested − held) ∩ existing roles); unknown role keys are skipped |
| Roles.ReassignRolesFrame | src/Infrastructure/Database/Users/RoleService.cs:365-369 | other users' rows are untouched |
| Roles.NormaliseRoleRequest | src/Infrastructure/Database/Users/RoleService.cs:338-361 | a user holding Admin gets the Admin key added; otherwise the other keys are unchanged and the Admin key remains iff it was named twice or more |
| Roles.RoleAdvisory | src/Infrastructure/Database/Users/RoleService.cs:338-361 | one "error" advisory is attached exactly when the request and the user disagree about Admin, and none otherwise |
| Roles.ReassignRoles | src/Infrastructure/Database/Users/RoleService.cs:363-385 | the new table holds only old rows and rows of the user for requested, existing roles, and keeps every other user's rows and the user's requested rows |
| Roles.AdminRoleKept | src/Infrastructure/Database/Users/RoleService.cs:338-349 | a user who holds Admin keeps it whatever the request says |
| Roles.AdminRoleNotGrantedOnce | src/Infrastructure/Database/Users/RoleService.cs:350-361 | a user without Admin whose request names the Admin key at most once does not get Admin |
| Roles.AdminRoleGrantedByDuplicate | src/Infrastructure/Database/Users/RoleService.cs:350-361 | as written, a user without Admin whose request names the Admin key twice gets Admin |
| Roles.AdminRoleGrantedExample | src/Infrastructure/Database/Users/RoleService.cs:350-361 | the concrete request `[admin, admin]` from a user with no roles grants Admin |
| Roles.IntendedAdminProtection | src/Infrastructure/Database/Users/RoleService.cs:338-361 | when every Admin key is filtered out, the user holds Admin afterwards iff they held it before |
| Roles.AssignRolesExample | src/Infrastructure/Database/Users/RoleService.cs:338-385 | a user holding {R1, Admin} who asks for [R1] ends with {R1, Admin}, and the answer carries "Can not unassign user from Admin role" |
| Roles.RoleService.constructor | src/Infrastructure/Database/Users/RoleService.cs:30-45 | the service starts over tables in which Admin exists under the cached key |
| Roles.RoleService.CreateRole | src/Infrastructure/Database/Users/RoleService.cs:74-110 | a refused name changes nothing; otherwise the store's outcome decides between "Role created" and "Failed to create role", and a created role has its name upper-cased; the Admin invariant is kept |
| Roles.RoleService.UpdateRole | src/Infrastructure/Database/Users/RoleService.cs:112-149 | a refused rename changes nothing; otherwise only that role's name changes, to the new name and its normalised form; the Admin invariant is kept |
| Roles.RoleService.DeleteRole | src/Infrastructure/Database/Users/RoleService.cs:151-184 | a refused deletion changes nothing; otherwise the role and its join-table rows go; the Admin invariant is kept |
| Roles.RoleService.AssignUsersToRole | src/Infrastructure/Database/Users/RoleService.cs:209-263 | the table becomes `ReassignUsers` of the old one, the answer is "Users assigned to role", and Admin's holders never change |
| Roles.RoleService.AssignUserToRole | src/Infrastructure/Database/Users/RoleService.cs:265-313 | the row is added when missing and the table is otherwise unchanged; the answer reports an existing row; Admin's holders never change |
| Roles.RoleService.AssignRolesToUser | src/Infrastructure/Database/Users/RoleService.cs:315-390 | an unknown user gets "User not found" and nothing changes; otherwise the caller's list is normalised in place, the table becomes `ReassignRoles` of the old one for the normalised list, and the advisory is attached |
| UserCreate.ValidateCreate | src/Application/UseCases/Users/Create/UserCreateCommandHandler.cs:24-50 | the command passes iff `Payload.Id` is null or blank; otherwise the answer is "Validation error." with the `Payload.Id` error |
| UserCreate.SanitisedRolesDropAdmin | src/Application/UseCases/Users/Create/UserCreateCommandHandler.cs:74-77 | the names passed to `AddToRolesAsync` are the requested names minus exactly "Admin" |
| UserCreate.SanitisedRolesKeepLowerCaseAdmin | src/Application/UseCases/Users/Create/UserCreateCommandHandler.cs:74-77 | as written, "admin" is passed on, and it normalises to ADMIN |
| UserCreate.SanitisedRoles | src/Application/UseCases/Users/Create/UserCreateCommandHandler.cs:74-75 | the names passed to `AddToRolesAsync` are requested names, without duplicates |
| UserCreate.SanitisedRolesIntendedDropAdmin | src/Application/UseCases/Users/Create/UserCreateCommandHandler.cs:74-77 | with a case-insensitive filter, no name passed on resolves to Admin and every other requested name is passed on |
| UserCreate.HandleCreate | src/Application/UseCases/Users/Create/UserCreateCommandHandler.cs:52-91 | a missing password creates nothing; otherwise null roles become empty, roles are sanitised and passed on only when creation succeeded, that call throws `InvalidOperationException` exactly as `AddToRolesThrows` says, and otherwise the answer echoes username and e-mail with success equal to creation success |
| UserCreate.CreateThrowsOnUnknownRole | src/Application/UseCases/Users/Create/UserCreateCommandHandler.cs:74-77 | when the sanitised names resolve to distinct roles, creation ends in `InvalidOperationException` iff one of them names no stored role |
| UserUpdate.UpdateValidation | src/Application/UseCases/Users/Update/UserUpdateCommandHandler.cs:22-79 | validation passes iff the username is unchanged and either no new password is given or both password steps succeed; it throws iff a new password is given for a missing user |
| UserUpdate.MissingUserPassesValidation | src/Application/UseCases/Users/Update/UserUpdateCommandHandler.cs:29-44 | as written, a missing user with no new password passes validation |
| UserUpdate.IntendedValidationNeedsUser | src/Application/UseCases/Users/Update/UserUpdateCommandHandler.cs:29-38 | when the not-found result is returned, only existing users reach the handler, nothing throws, and a missing user gets "User not found" |
| UserUpdate.PasswordLostWhenAddFails | src/Application/UseCases/Users/Update/UserUpdateCommandHandler.cs:48-73 | as written, when removing the password succeeds and adding the new one fails, the user is left with no password |
| UserUpdate.PasswordAfterUpdate | src/Application/UseCases/Users/Update/UserUpdateCommandHandler.cs:48-73 | the stored password becomes the new one when both steps succeed, is unchanged when the removal fails, and is otherwise gone |
| UserUpdate.IntendedPasswordAllOrNothing | src/Application/UseCases/Users/Update/UserUpdateCommandHandler.cs:48-73 | with an all-or-nothing replacement the credential changes iff both steps succeed, and a user with a password always keeps one |
| UserUpdate.ValidateUpdate | src/Application/UseCases/Users/Update/UserUpdateCommandHandler.cs:22-79 | the verdict is `UpdateValidation`; null roles become an empty list once the username check passes; only the stored password changes, as `PasswordAfterUpdate` says |
| UserUpdate.DesiredRoleNames | src/Application/UseCases/Users/Update/UserUpdateCommandHandler.cs:99-102 | the desired list has no duplicates, holds "Admin" when the user does, and holds nothing but requested names and "Admin" |
| UserUpdate.UpdateReconciles | src/Application/UseCases/Users/Update/UserUpdateCommandHandler.cs:104-116 | when the stored names resolve to distinct roles, removing existing − desired and adding desired − existing leaves the user holding exactly the roles the desired names resolve to; names in both lists are in neither call |
| UserUpdate.DesiredRoleNamesElements | src/Application/UseCases/Users/Update/UserUpdateCommandHandler.cs:99-102 | the desired names are the requested ones apart from Admin, plus Admin iff the user holds it or the request names it at least twice |
| UserUpdate.UpdateKeepsAdmin | src/Application/UseCases/Users/Update/UserUpdateCommandHandler.cs:99-116 | a user who holds Admin still holds the ADMIN role afterwards |
| UserUpdate.UpdateAdminNotGrantedOnce | src/Application/UseCases/Users/Update/UserUpdateCommandHandler.cs:99-116 | a user without the ADMIN role whose request names "Admin" at most once, and spells no other name that normalises to ADMIN, does not hold ADMIN afterwards |
| UserUpdate.UpdateAdminGrantedByDuplicate | src/Application/UseCases/Users/Update/UserUpdateCommandHandler.cs:99-116 | as written, a request `["Admin", "Admin"]` hands "Admin" to `AddToRolesAsync` for a user without it, and the user ends holding ADMIN |
| UserUpdate.UpdateAdminGrantedByLowerCase | src/Application/UseCases/Users/Update/UserUpdateCommandHandler.cs:99-116 | as written, a request `["admin"]` hands "admin" to `AddToRolesAsync` for a user without Admin, and the user ends holding ADMIN |
| UserUpdate.IntendedUpdateAdminProtection | src/Application/UseCases/Users/Update/UserUpdateCommandHandler.cs:99-116 | when every name that normalises to ADMIN is filtered out, the user holds ADMIN afterwards iff before, and holds exactly the roles the other requested names resolve to |
| UserUpdate.UpdateAnswer | src/Application/UseCases/Users/Update/UserUpdateCommandHandler.cs:119-128 | success follows the profile update, the message says "User updated" exactly on failure (the two messages are swapped), the payload echoes the user, and the advisories are attached under "error" |
| UserUpdate.HandleUpdate | src/Application/UseCases/Users/Update/UserUpdateCommandHandler.cs:81-130 | exactly email, phone, full name and team are overwritten; role calls are made only after a successful update, with the desired list stored back in the payload; `AddToRolesAsync` throws `InvalidOperationException` exactly as `AddToRolesThrows` says for the roles held at that call; failed calls only add advisories; a missing user or a null role list throws |
| UserUpdate.ExecuteUpdate | src/Application/UseCases/Users/Update/UserUpdateCommandHandler.cs:22-130 | a rejected validation is the answer; a passed validation for a missing user ends in an exception; otherwise a returned answer's success is the profile update's, and an exception is `InvalidOperationException` after a successful profile update |
| TeamAssign.TeamAssignValidation | src/Application/UseCases/Teams/AssignUser/TeamAssignUserCommandHandler.cs:22-42 | the command passes iff the payload is non-empty and the team exists; a bad payload gets the `Payload` error, a missing team the `Id` → "Not found." error, both under "Validation error." |
| TeamAssign.PayloadCheckedFirst | src/Application/UseCases/Teams/AssignUser/TeamAssignUserCommandHandler.cs:24-39 | a bad payload is answered the same whether or not the team exists: the lookup is not reached |
| TeamAssign.SelectUsers | src/Application/UseCases/Teams/AssignUser/TeamAssignUserCommandHandler.cs:46 | the users selected are exactly the stored users whose key the payload names; other ids select nothing |
| TeamAssign.TeamAfterAssign | src/Application/UseCases/Teams/AssignUser/TeamAssignUserCommandHandler.cs:48-51 | a user the payload names gets the command's team id; every other user keeps their team |
| TeamAssign.HandleTeamAssign | src/Application/UseCases/Teams/AssignUser/TeamAssignUserCommandHandler.cs:44-57 | every named user ends in the team, every other user keeps their team, no other field changes, and the answer is "Assigned successfully." with payload true |
| TeamAssign.TeamAssignIdempotent | src/Application/UseCases/Teams/AssignUser/TeamAssignUserCommandHandler.cs:48-51 | running the same command twice leaves each user where running it once did |
| TeamAssign.ExecuteTeamAssign | src/Application/UseCases/Teams/AssignUser/TeamAssignUserCommandHandler.cs:22-57 | a rejected command changes no team; an accepted one moves exactly the named users and succeeds |

## Left out

- Culture-specific case folding: `CurrentCultureIgnoreCase` comparisons and the identity store's name normalisation are both modelled as ASCII upper-casing. Locale-specific cases such as the Turkish dotted i are not covered.
- Unicode white space: `IsNullOrWhiteSpace` is modelled over the Latin-1 white-space characters only.
- Null arguments that the handlers do not test themselves are not modelled. These are a null command payload, a null role list passed to the role service, and a null `Name` in an update. The validators reject a null payload before the handlers run.
- The message of a failed role lookup comes from the result library's default and is not visible here. It is modelled as the constant `LookupFailedMessage`, the empty string.
- The null-role test in `DeleteRoleAsync` (RoleService.cs:163-166) cannot fire once the lookup has succeeded, so it is not modelled.
- The identity and database calls are parameters: the outcomes of `CreateAsync`, `UpdateAsync`, `AddToRolesAsync`, `RemoveFromRolesAsync`, the password calls, the role store and the team lookup. The one outcome derived from the names is the `InvalidOperationException` that `AddToRolesAsync` throws for a name that resolves to no stored role; the set of stored normalised role names is the parameter `known`. So are the ids the store generates. The role store's own checks, such as duplicate names, only show through its outcome.
- Saving is a plain commit. The foreign-key check that would refuse join rows for unknown user ids is not modelled, so `AssignUsersToRole` inserts rows for any requested id, just as the service asks the database to.
- Transactions, execution strategies and concurrency are not modelled. The re-checks before inserting a row (RoleService.cs:247, 298) guard against concurrent writers, and with sequential execution they always find no row.
- Lazily caching the Admin key at start-up (RoleService.cs:37-40) is modelled as the constant `adminRoleId`. The `Valid()` invariant says it is the key of the role normalised as ADMIN.
- `GetRolesAsync`, `GetUsersInRoleAsync` and the role store's query paging and ordering are not modelled: they are read-only store queries.
- Password hashing is not modelled. The stored credential is represented by the password itself.
- `ApplicationUser.FullName` is null for a freshly created user. Here it is the empty string.
- `TeamId` is a 64-bit integer in the source. Here it is an unbounded `int`; it is only copied, never computed, so the width does not matter.
- The validators' own rules are written out as functions. Any other message formatting inside the validation library is not modelled.
- `RoleService.AssignRolesToUser` takes the Admin role read from the table and the cached key to be the same. `Valid()` guarantees this; if the two disagreed, the source would behave differently, and that case is not modelled.

- UserUpdate.HandleUpdate: the failed result `AddToRolesAsync` returns for a name the user already holds is the parameter `addOk`, not derived from the names. When `RemoveFromRolesAsync` fails, the roles held at the add call are taken to be all the existing ones; a partial removal is not modelled.
- UserCreate.HandleCreate: the answer of `AddToRolesAsync` when it does not throw is ignored by the source and is not modelled.
- UserUpdate.UpdateReconciles: the lemmas about the update's roles take the names `GetRolesAsync` returns to resolve to distinct roles (`Roles.DistinctNormalised`), as the identity store's unique normalised names guarantee. `UserUpdate.IntendedUpdateAdminProtection` also takes the Admin role's stored name to be "Admin", as seeded (`StoredRoleNames`).
- UserUpdate.UpdateAdminNotGrantedOnce: covers requests that spell Admin only as "Admin". Other spellings grant Admin, as `UserUpdate.UpdateAdminGrantedByLowerCase` shows.

## Findings

| source | as written | input that shows it | evidently intended | confidence | as-written member | corrected member |
|---|---|---|---|---|---|---|
| src/Infrastructure/Database/Users/RoleService.cs:352-361 | `roleIds.Remove(AdminRoleId)` drops only the first occurrence of the Admin key | a user without Admin sends `[adminId, adminId]` | a user without Admin can never be granted it | not executed | Roles.AdminRoleGrantedByDuplicate | Roles.IntendedAdminProtection |
| src/Application/UseCases/Users/Update/UserUpdateCommandHandler.cs:99-116 | `Roles.Remove("Admin")` compares names exactly, but the identity store resolves names by their normalised form | a user without Admin updates with roles `["admin"]` | a user without Admin can never be granted it | not executed | UserUpdate.UpdateAdminGrantedByLowerCase | UserUpdate.IntendedUpdateAdminProtection |
| src/Application/UseCases/Users/Update/UserUpdateCommandHandler.cs:99-102 | `Roles.Remove("Admin")` runs before `Distinct`, dropping one occurrence | a user without Admin updates with roles `["Admin", "Admin"]` | a user without Admin can never be granted it | not executed | UserUpdate.UpdateAdminGrantedByDuplicate | UserUpdate.IntendedUpdateAdminProtection |
| src/Application/UseCases/Users/Create/UserCreateCommandHandler.cs:75 | the filter compares names exactly, but the identity store resolves names by their normalised form | create a user with roles `["admin"]` | no spelling of Admin is assigned at creation | not executed | UserCreate.SanitisedRolesKeepLowerCaseAdmin | UserCreate.SanitisedRolesIntendedDropAdmin |
| src/Infrastructure/Database/Users/RoleService.cs:168-176 | the Admin guard is written twice; the first returns the update message, so the second is unreachable | delete the Admin role | the answer "Can not delete this role" | not executed | Roles.DeleteRoleAdminMessage | Roles.DeleteRoleIntendedMessage |
| src/Infrastructure/Database/Users/RoleService.cs:92-98 | `^[a-zA-Z]+$` without options lets `$` match before a final line feed | create a role named `"Editor\n"` | only English letters | not executed | Roles.CreateRoleAcceptsTrailingNewline | Roles.CreateRoleIntendedLettersOnly |
| src/Application/UseCases/Users/Update/UserUpdateCommandHandler.cs:29-38 | the not-found result is built but never returned | update a user name that does not exist, with the same username and no password: the handler dereferences null | answer "User not found" | not executed | UserUpdate.MissingUserPassesValidation | UserUpdate.IntendedValidationNeedsUser |
| src/Application/UseCases/Users/Update/UserUpdateCommandHandler.cs:50-73 | the old password is removed before the new one is added, with no rollback | `AddPasswordAsync` refuses the new password, e.g. because it is too weak | the old password is kept when the update fails | not executed | UserUpdate.PasswordLostWhenAddFails | UserUpdate.IntendedPasswordAllOrNothing |
