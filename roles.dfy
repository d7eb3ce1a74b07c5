/** The role service: the guards on creating, renaming and deleting roles,
    and the three reconciliations of the user-to-role join table, with the
    protection of the Admin role. The join table is a set of (user, role)
    pairs; saving the unit of work commits the pending inserts and deletes. */
module Roles {
  import opened Common
  import opened Text
  import opened Lists

  const AdminRoleName := "Admin"
  const AdminNormalizedRoleName := "ADMIN"

  datatype Role = Role(name: string, normalizedName: string)

  /** One row of the join table. */
  datatype UserRole = UserRole(userId: string, roleId: string)

  /** GetRoleAsync answers a failed lookup without a message of its own; the
      responses that forward its message carry the envelope's default,
      taken here to be the empty string. */
  const LookupFailedMessage := ""

  /** The Admin role exists, its key is the one cached at start-up, and no
      other role has its normalised name. */
  ghost predicate AdminProtected(roles: map<string, Role>, adminRoleId: string)
  {
    && adminRoleId in roles
    && roles[adminRoleId].normalizedName == AdminNormalizedRoleName
    && forall id :: id in roles && roles[id].normalizedName == AdminNormalizedRoleName ==> id == adminRoleId
  }

  function Failed(message: string, errors: map<string, seq<string>>): Response<bool>
  {
    Response(false, Some(false), message, errors, map[])
  }

  /** The answer after a call into the role store, whose success decides both
      the flag and which of the two messages is shown. */
  function StoreAnswer(ok: bool, success: string, failure: string): Response<bool>
  {
    Response(ok, Some(ok), if ok then success else failure, map[], map[])
  }

  lemma UpperOfAdmin()
    ensures Upper(AdminNormalizedRoleName) == AdminNormalizedRoleName
    ensures Upper(AdminRoleName) == AdminNormalizedRoleName
    ensures Upper("admin") == AdminNormalizedRoleName
  {
    assert Upper(AdminNormalizedRoleName)[..] == AdminNormalizedRoleName;
    assert Upper(AdminRoleName)[..] == AdminNormalizedRoleName;
    assert Upper("admin")[..] == AdminNormalizedRoleName;
  }

  // ----------------------------------------------------------------------
  // How the identity store resolves role names: by their normalised form
  // ----------------------------------------------------------------------

  /** The roles a list of names resolves to, by normalised name. */
  function NormalisedNames(names: seq<string>): set<string>
  {
    set n | n in names :: Upper(n)
  }

  /** The normalised names depend only on which names occur. */
  lemma NormalisedNamesOfElements(a: seq<string>, b: seq<string>)
    requires Elements(a) == Elements(b)
    ensures NormalisedNames(a) == NormalisedNames(b)
  {
    forall x | x in NormalisedNames(a) ensures x in NormalisedNames(b) {
      var n :| n in a && Upper(n) == x;
      assert n in Elements(b);
    }
    forall x | x in NormalisedNames(b) ensures x in NormalisedNames(a) {
      var n :| n in b && Upper(n) == x;
      assert n in Elements(a);
    }
  }

  /** No two positions of the list name the same role. GetRolesAsync
      answers with such a list: one name per role held, and role names are
      unique by normalised form. */
  predicate DistinctNormalised(names: seq<string>)
  {
    forall i, j :: 0 <= i < |names| && 0 <= j < |names| && Upper(names[i]) == Upper(names[j]) ==> i == j
  }

  /** The names whose normalised form is not ADMIN, in order. */
  function WithoutAdminSpellings(names: seq<string>): (r: seq<string>)
    ensures forall n :: n in r ==> n in names && Upper(n) != AdminNormalizedRoleName
    ensures forall n :: n in names && Upper(n) != AdminNormalizedRoleName ==> n in r
  {
    if names == [] then []
    else
      var rest := WithoutAdminSpellings(names[1..]);
      assert forall n :: n in names <==> n == names[0] || n in names[1..];
      if Upper(names[0]) == AdminNormalizedRoleName then rest else [names[0]] + rest
  }

  /** Whether UserManager.AddToRolesAsync(user, names) throws. It walks the
      names in order: a name whose role the user already holds (`held`, by
      normalised name, growing as roles are added) ends the call with a
      failed result; a name that resolves to no role (`known` holds the
      normalised names of the stored roles) makes the store throw
      InvalidOperationException. A throw always comes from an unknown name. */
  function AddToRolesThrows(names: seq<string>, held: set<string>, known: set<string>): (r: bool)
    ensures r ==> exists i :: 0 <= i < |names| && Upper(names[i]) !in known
  {
    if names == [] then false
    else if Upper(names[0]) in held then false
    else if Upper(names[0]) !in known then true
    else
      var r := AddToRolesThrows(names[1..], held + {Upper(names[0])}, known);
      assert r ==> exists i :: 1 <= i < |names| && Upper(names[i]) !in known by {
        if r {
          var i :| 0 <= i < |names[1..]| && Upper(names[1..][i]) !in known;
          assert names[1..][i] == names[i + 1];
        }
      }
      r
  }

  /** When none of the names is held and no two name the same role, the call
      throws exactly when one of them names no role. */
  lemma {:induction false} AddToRolesThrowsExactly(names: seq<string>, held: set<string>, known: set<string>)
    requires DistinctNormalised(names)
    requires forall i :: 0 <= i < |names| ==> Upper(names[i]) !in held
    ensures AddToRolesThrows(names, held, known) <==> exists i :: 0 <= i < |names| && Upper(names[i]) !in known
  {
    if names != [] && Upper(names[0]) in known {
      var tail := names[1..];
      var held' := held + {Upper(names[0])};
      forall i | 0 <= i < |tail| ensures Upper(tail[i]) !in held' {
        assert tail[i] == names[i + 1];
      }
      forall i, j | 0 <= i < |tail| && 0 <= j < |tail| && Upper(tail[i]) == Upper(tail[j]) ensures i == j {
        assert tail[i] == names[i + 1] && tail[j] == names[j + 1];
      }
      AddToRolesThrowsExactly(tail, held', known);
      if exists i :: 0 <= i < |names| && Upper(names[i]) !in known {
        var i :| 0 <= i < |names| && Upper(names[i]) !in known;
        assert tail[i - 1] == names[i];
      }
    }
  }

  // ----------------------------------------------------------------------
  // Guards of CreateRoleAsync, UpdateRoleAsync and DeleteRoleAsync
  // ----------------------------------------------------------------------

  /** The guard chain of CreateRoleAsync, in its order: the error response,
      or None when the name goes on to the role store. */
  function CreateRoleRejection(roleName: Option<string>): (r: Option<Response<bool>>)
    ensures r.Some? ==> !r.value.succeeded && r.value.payload == Some(false)
    ensures r.None? ==> roleName.Some? && !IsBlank(roleName.value) && MatchesLettersPattern(roleName.value)
  {
    if roleName.None? || IsBlank(roleName.value) then
      Some(Failed("Role name is required", map["roleName" := ["'roleName' is required"]]))
    else if EqualsIgnoreCase(roleName.value, AdminNormalizedRoleName) then
      Some(Failed("Can not create Admin role", map["role" := ["Can not create Admin role"]]))
    else if !MatchesLettersPattern(roleName.value) then
      Some(Failed("Role name must contain only English alphabet", map[]))
    else
      None
  }

  /** A name reaches the role store exactly when it matches the letters
      pattern and does not fold to ADMIN; the blank test never decides alone. */
  lemma {:induction false} CreateRoleAccepts(roleName: Option<string>)
    ensures CreateRoleRejection(roleName).None? <==>
      roleName.Some? && MatchesLettersPattern(roleName.value) && Upper(roleName.value) != AdminNormalizedRoleName
  {
    UpperOfAdmin();
    if roleName.Some? && MatchesLettersPattern(roleName.value) {
      var s := roleName.value;
      assert IsAsciiLetter(s[0]);
      assert !IsBlank(s);
    }
  }

  /** Every spelling of Admin, in any case, is refused with the Admin
      message, before the pattern is consulted. */
  lemma CreateRoleRefusesAdmin(name: string)
    requires Upper(name) == AdminNormalizedRoleName
    ensures CreateRoleRejection(Some(name)) ==
      Some(Failed("Can not create Admin role", map["role" := ["Can not create Admin role"]]))
  {
    UpperOfAdmin();
    assert AdminNormalizedRoleName[0] == 'A';
    FoldsToNonBlank(name, AdminNormalizedRoleName);
  }

  /** As written, the end anchor of the pattern lets a name with a
      trailing line feed through to the role store. */
  lemma CreateRoleAcceptsTrailingNewline()
    ensures CreateRoleRejection(Some("Editor\n")) == None
  {
    var s := "Editor\n";
    assert !IsWhiteSpace(s[0]);
    assert |Upper(s)| != |AdminNormalizedRoleName|;
    assert s[..|s| - 1] == "Editor";
  }

  /** The guard chain as evidently intended: only letters, nothing after
      the last one. */
  function CreateRoleRejectionIntended(roleName: Option<string>): Option<Response<bool>>
  {
    if roleName.None? || IsBlank(roleName.value) then
      Some(Failed("Role name is required", map["roleName" := ["'roleName' is required"]]))
    else if EqualsIgnoreCase(roleName.value, AdminNormalizedRoleName) then
      Some(Failed("Can not create Admin role", map["role" := ["Can not create Admin role"]]))
    else if !MatchesLettersOnly(roleName.value) then
      Some(Failed("Role name must contain only English alphabet", map[]))
    else
      None
  }

  /** With the intended pattern a name reaches the role store exactly when
      it is a non-empty run of English letters that does not fold to ADMIN. */
  lemma CreateRoleIntendedLettersOnly(roleName: Option<string>)
    ensures CreateRoleRejectionIntended(roleName).None? <==>
      roleName.Some? && |roleName.value| > 0 && AllAsciiLetters(roleName.value)
      && Upper(roleName.value) != AdminNormalizedRoleName
  {
    UpperOfAdmin();
    if roleName.Some? && MatchesLettersOnly(roleName.value) {
      assert IsAsciiLetter(roleName.value[0]);
    }
  }

  /** The guard chain of UpdateRoleAsync. `role` is the new role data (null
      when the request carried none) reduced to its Name. */
  function UpdateRoleRejection(roles: map<string, Role>, roleId: string, role: Option<string>): (r: Option<Response<bool>>)
    ensures r.Some? ==> !r.value.succeeded && r.value.payload == Some(false)
    ensures r.None? ==> role.Some? && roleId in roles && roles[roleId].normalizedName != AdminNormalizedRoleName
  {
    if role.None? then
      Some(Failed("Invalid data", map[]))
    else if EqualsIgnoreCase(role.value, AdminNormalizedRoleName) then
      Some(Failed("Can not update to Admin role", map[]))
    else if roleId !in roles then
      Some(Failed(LookupFailedMessage, map[]))
    else if roles[roleId].normalizedName == AdminNormalizedRoleName then
      Some(Failed("Can not update this role", map[]))
    else
      None
  }

  /** A rename goes through only for an existing role that is not Admin, to
      a name that does not fold to ADMIN. */
  lemma UpdateRoleAccepts(roles: map<string, Role>, adminRoleId: string, roleId: string, role: Option<string>)
    requires AdminProtected(roles, adminRoleId)
    ensures UpdateRoleRejection(roles, roleId, role).None? <==>
      role.Some? && Upper(role.value) != AdminNormalizedRoleName && roleId in roles && roleId != adminRoleId
  {
    UpperOfAdmin();
  }

  /** The guard chain of DeleteRoleAsync as written: the Admin role is
      refused with the update message, and the second, identical test whose
      message is "Can not delete this role" comes after it. (The null test of
      RoleService.cs:163 cannot fire after a successful lookup.) */
  function DeleteRoleRejection(roles: map<string, Role>, roleId: string): (r: Option<Response<bool>>)
    ensures r.Some? ==> !r.value.succeeded && r.value.payload == Some(false)
    ensures r.None? <==> roleId in roles && roles[roleId].normalizedName != AdminNormalizedRoleName
  {
    if roleId !in roles then
      Some(Failed(LookupFailedMessage, map[]))
    else if roles[roleId].normalizedName == AdminNormalizedRoleName then
      Some(Failed("Can not update this role", map[]))
    else if roles[roleId].normalizedName == AdminNormalizedRoleName then
      Some(Failed("Can not delete this role", map[]))
    else
      None
  }

  /** Deleting Admin is refused, with the update message; the delete message
      is never produced. */
  lemma DeleteRoleAdminMessage(roles: map<string, Role>, adminRoleId: string, roleId: string)
    requires AdminProtected(roles, adminRoleId)
    ensures roleId == adminRoleId ==>
      DeleteRoleRejection(roles, roleId) == Some(Failed("Can not update this role", map[]))
    ensures DeleteRoleRejection(roles, roleId).None? <==> roleId in roles && roleId != adminRoleId
    ensures DeleteRoleRejection(roles, roleId) != Some(Failed("Can not delete this role", map[]))
  {
  }

  /** The guard chain as evidently intended: Admin gets the delete message. */
  function DeleteRoleRejectionIntended(roles: map<string, Role>, roleId: string): Option<Response<bool>>
  {
    if roleId !in roles then
      Some(Failed(LookupFailedMessage, map[]))
    else if roles[roleId].normalizedName == AdminNormalizedRoleName then
      Some(Failed("Can not delete this role", map[]))
    else
      None
  }

  lemma DeleteRoleIntendedMessage(roles: map<string, Role>, adminRoleId: string, roleId: string)
    requires AdminProtected(roles, adminRoleId)
    ensures roleId == adminRoleId ==>
      DeleteRoleRejectionIntended(roles, roleId) == Some(Failed("Can not delete this role", map[]))
    ensures DeleteRoleRejectionIntended(roles, roleId).None? <==> roleId in roles && roleId != adminRoleId
  {
  }

  // ----------------------------------------------------------------------
  // The join table, seen from a role and from a user
  // ----------------------------------------------------------------------

  function UsersInRole(pairs: set<UserRole>, roleId: string): set<string>
  {
    set p | p in pairs && p.roleId == roleId :: p.userId
  }

  function RolesOfUser(pairs: set<UserRole>, userId: string): set<string>
  {
    set p | p in pairs && p.userId == userId :: p.roleId
  }

  // ----------------------------------------------------------------------
  // AssignUsersToRoleAsync and AssignUserToRoleAsync
  // ----------------------------------------------------------------------

  /** The shared guard of both role-side assignments: the role must exist
      and must not be the Admin role. */
  function AssignToRoleRejection(roles: map<string, Role>, roleId: string): (r: Option<Response<bool>>)
    ensures r.None? <==> roleId in roles && roles[roleId].normalizedName != AdminNormalizedRoleName
    ensures r.Some? ==> !r.value.succeeded && r.value.payload == Some(false) && |r.value.errors| == 1
  {
    if roleId !in roles then
      Some(Failed(LookupFailedMessage, map["role" := [LookupFailedMessage]]))
    else if roles[roleId].normalizedName == AdminNormalizedRoleName then
      Some(Failed("Can not assign users to Admin role", map[AdminRoleName := ["Can not assign users to Admin role"]]))
    else
      None
  }

  /** Role-side assignment is open exactly for the existing roles other than
      Admin. */
  lemma AssignToRoleAccepts(roles: map<string, Role>, adminRoleId: string, roleId: string)
    requires AdminProtected(roles, adminRoleId)
    ensures AssignToRoleRejection(roles, roleId).None? <==> roleId in roles && roleId != adminRoleId
  {
  }

  /** The rows of roleId whose user is not requested: the rows deleted. */
  function UsersToRemove(pairs: set<UserRole>, roleId: string, userIds: seq<string>): set<UserRole>
  {
    set p | p in pairs && p.roleId == roleId && p.userId !in userIds
  }

  /** The requested users that do not hold roleId yet: the rows inserted. */
  function UsersToAdd(pairs: set<UserRole>, roleId: string, userIds: seq<string>): set<string>
  {
    Elements(userIds) - UsersInRole(pairs, roleId)
  }

  /** The join table after a successful AssignUsersToRoleAsync. */
  function ReassignUsers(pairs: set<UserRole>, roleId: string, userIds: seq<string>): (r: set<UserRole>)
    ensures forall p :: p in r ==> p in pairs || (p.roleId == roleId && p.userId in userIds)
    ensures forall p :: p in pairs && (p.roleId != roleId || p.userId in userIds) ==> p in r
  {
    (pairs - UsersToRemove(pairs, roleId, userIds))
      + set u | u in UsersToAdd(pairs, roleId, userIds) :: UserRole(u, roleId)
  }

  /** Afterwards the holders of the role are exactly the distinct requested
      users, whether or not they exist. */
  lemma ReassignUsersHolders(pairs: set<UserRole>, roleId: string, userIds: seq<string>)
    ensures UsersInRole(ReassignUsers(pairs, roleId, userIds), roleId) == Elements(userIds)
  {
    var after := ReassignUsers(pairs, roleId, userIds);
    forall u | u in Elements(userIds) ensures u in UsersInRole(after, roleId) {
      if UserRole(u, roleId) in pairs {
        assert UserRole(u, roleId) in after;
      } else {
        assert u !in UsersInRole(pairs, roleId);
        assert UserRole(u, roleId) in after;
      }
    }
  }

  /** The rows of every other role are untouched. */
  lemma ReassignUsersFrame(pairs: set<UserRole>, roleId: string, userIds: seq<string>, p: UserRole)
    requires p.roleId != roleId
    ensures p in ReassignUsers(pairs, roleId, userIds) <==> p in pairs
  {
  }

  /** Repeating the same call deletes nothing, inserts nothing and leaves the
      table as it was. */
  lemma ReassignUsersIdempotent(pairs: set<UserRole>, roleId: string, userIds: seq<string>)
    ensures var after := ReassignUsers(pairs, roleId, userIds);
      && UsersToRemove(after, roleId, userIds) == {}
      && UsersToAdd(after, roleId, userIds) == {}
      && ReassignUsers(after, roleId, userIds) == after
  {
    var after := ReassignUsers(pairs, roleId, userIds);
    ReassignUsersHolders(pairs, roleId, userIds);
    assert UsersToAdd(after, roleId, userIds) == {};
    forall p | p in after && p.roleId == roleId ensures p.userId in userIds {
      assert p.userId in UsersInRole(after, roleId);
    }
  }

  /** The worked example: members {U1, U2}, request [U2, U3] gives members
      {U2, U3} with one row deleted (U1) and one inserted (U3). */
  lemma ReassignUsersExample()
    ensures var before := {UserRole("U1", "R1"), UserRole("U2", "R1")};
      && UsersToRemove(before, "R1", ["U2", "U3"]) == {UserRole("U1", "R1")}
      && UsersToAdd(before, "R1", ["U2", "U3"]) == {"U3"}
      && UsersInRole(ReassignUsers(before, "R1", ["U2", "U3"]), "R1") == {"U2", "U3"}
  {
    var before := {UserRole("U1", "R1"), UserRole("U2", "R1")};
    assert UsersInRole(before, "R1") == {"U1", "U2"} by {
      assert UserRole("U1", "R1") in before && UserRole("U2", "R1") in before;
    }
    assert Elements(["U2", "U3"]) == {"U2", "U3"} by {
      assert "U2" == ["U2", "U3"][0] && "U3" == ["U2", "U3"][1];
    }
    assert "U1" !in ["U2", "U3"];
    ReassignUsersHolders(before, "R1", ["U2", "U3"]);
  }

  // ----------------------------------------------------------------------
  // AssignRolesToUserAsync
  // ----------------------------------------------------------------------

  /** The request list after the Admin normalisation, as written: a holder
      of Admin gets Admin appended when it is missing; anyone else loses ONE
      occurrence of the Admin key (List.Remove). */
  function NormaliseRoleRequest(hasAdmin: bool, adminRoleId: string, roleIds: seq<string>): (r: seq<string>)
    ensures hasAdmin ==> Elements(r) == Elements(roleIds) + {adminRoleId}
    ensures !hasAdmin ==> Elements(r) - {adminRoleId} == Elements(roleIds) - {adminRoleId}
    ensures !hasAdmin ==> (adminRoleId in r <==> multiset(roleIds)[adminRoleId] >= 2)
  {
    if hasAdmin then
      if adminRoleId in roleIds then roleIds
      else
        assert Elements(roleIds + [adminRoleId]) == Elements(roleIds) + {adminRoleId};
        roleIds + [adminRoleId]
    else if adminRoleId in roleIds then
      RemoveFirstLeaves(roleIds, adminRoleId);
      RemoveFirst(roleIds, adminRoleId)
    else roleIds
  }

  /** The advisory attached to the (still successful) answer. */
  function RoleAdvisory(hasAdmin: bool, adminRoleId: string, roleIds: seq<string>): (r: map<string, seq<string>>)
    ensures r.Keys == if hasAdmin == (adminRoleId in roleIds) then {} else {"error"}
    ensures "error" in r ==> |r["error"]| == 1
  {
    if hasAdmin && adminRoleId !in roleIds then
      map["error" := ["Can not unassign user from Admin role"]]
    else if !hasAdmin && adminRoleId in roleIds then
      map["error" := ["Can not assign user to Admin role"]]
    else
      map[]
  }

  /** The user's rows whose role is not requested: the rows deleted. */
  function RolesToRemove(pairs: set<UserRole>, userId: string, requested: seq<string>): set<UserRole>
  {
    set p | p in pairs && p.userId == userId && p.roleId !in requested
  }

  /** The requested roles the user does not hold yet, restricted to roles
      that exist: the rows inserted. */
  function RolesToAdd(pairs: set<UserRole>, known: set<string>, userId: string, requested: seq<string>): set<string>
  {
    (Elements(requested) - RolesOfUser(pairs, userId)) * known
  }

  /** The join table after the reconciliation for one user. */
  function ReassignRoles(pairs: set<UserRole>, known: set<string>, userId: string, requested: seq<string>): (r: set<UserRole>)
    ensures forall p :: p in r ==> p in pairs || (p.userId == userId && p.roleId in requested && p.roleId in known)
    ensures forall p :: p in pairs && (p.userId != userId || p.roleId in requested) ==> p in r
  {
    (pairs - RolesToRemove(pairs, userId, requested))
      + set x | x in RolesToAdd(pairs, known, userId, requested) :: UserRole(userId, x)
  }

  /** The whole of AssignRolesToUserAsync for an existing user, on the table. */
  function AssignRolesOutcome(pairs: set<UserRole>, known: set<string>, adminRoleId: string,
                              userId: string, roleIds: seq<string>): set<UserRole>
  {
    ReassignRoles(pairs, known, userId,
                  NormaliseRoleRequest(UserRole(userId, adminRoleId) in pairs, adminRoleId, roleIds))
  }

  /** The user's roles afterwards: those held and requested, plus those
      requested, not held and existing. Unknown keys are skipped. */
  lemma ReassignRolesResult(pairs: set<UserRole>, known: set<string>, userId: string, requested: seq<string>)
    ensures RolesOfUser(ReassignRoles(pairs, known, userId, requested), userId) ==
      (RolesOfUser(pairs, userId) * Elements(requested))
      + ((Elements(requested) - RolesOfUser(pairs, userId)) * known)
  {
    var after := ReassignRoles(pairs, known, userId, requested);
    var held := RolesOfUser(pairs, userId);
    forall x | x in held * Elements(requested) ensures x in RolesOfUser(after, userId) {
      assert UserRole(userId, x) in pairs;
      assert UserRole(userId, x) in after;
    }
    forall x | x in (Elements(requested) - held) * known ensures x in RolesOfUser(after, userId) {
      assert UserRole(userId, x) in after;
    }
  }

  /** Other users' rows are untouched. */
  lemma ReassignRolesFrame(pairs: set<UserRole>, known: set<string>, userId: string, requested: seq<string>, p: UserRole)
    requires p.userId != userId
    ensures p in ReassignRoles(pairs, known, userId, requested) <==> p in pairs
  {
  }

  /** A holder of Admin keeps it whatever the request says. */
  lemma AdminRoleKept(pairs: set<UserRole>, known: set<string>, adminRoleId: string, userId: string, roleIds: seq<string>)
    requires UserRole(userId, adminRoleId) in pairs
    ensures UserRole(userId, adminRoleId) in AssignRolesOutcome(pairs, known, adminRoleId, userId, roleIds)
  {
    var requested := NormaliseRoleRequest(true, adminRoleId, roleIds);
    assert adminRoleId in requested;
    assert UserRole(userId, adminRoleId) !in RolesToRemove(pairs, userId, requested);
  }

  /** A user without Admin who names the Admin key at most once does not get
      it. */
  lemma AdminRoleNotGrantedOnce(pairs: set<UserRole>, known: set<string>, adminRoleId: string, userId: string, roleIds: seq<string>)
    requires UserRole(userId, adminRoleId) !in pairs
    requires multiset(roleIds)[adminRoleId] <= 1
    ensures UserRole(userId, adminRoleId) !in AssignRolesOutcome(pairs, known, adminRoleId, userId, roleIds)
  {
    RemoveFirstLeaves(roleIds, adminRoleId);
    var requested := NormaliseRoleRequest(false, adminRoleId, roleIds);
    assert adminRoleId !in requested;
  }

  /** As written, a user without Admin who names the Admin key twice is
      granted Admin: only the first occurrence is removed. */
  lemma AdminRoleGrantedByDuplicate(pairs: set<UserRole>, known: set<string>, adminRoleId: string, userId: string, roleIds: seq<string>)
    requires UserRole(userId, adminRoleId) !in pairs
    requires adminRoleId in known
    requires multiset(roleIds)[adminRoleId] >= 2
    ensures UserRole(userId, adminRoleId) in AssignRolesOutcome(pairs, known, adminRoleId, userId, roleIds)
  {
    RemoveFirstLeaves(roleIds, adminRoleId);
    var requested := NormaliseRoleRequest(false, adminRoleId, roleIds);
    assert adminRoleId in requested;
    assert adminRoleId !in RolesOfUser(pairs, userId);
    assert adminRoleId in RolesToAdd(pairs, known, userId, requested);
  }

  /** The concrete request that shows it: a user with no roles sends the
      Admin key twice. */
  lemma AdminRoleGrantedExample()
    ensures UserRole("u1", "admin") in AssignRolesOutcome({}, {"admin"}, "admin", "u1", ["admin", "admin"])
  {
    assert multiset(["admin", "admin"])["admin"] == 2;
    AdminRoleGrantedByDuplicate({}, {"admin"}, "admin", "u1", ["admin", "admin"]);
  }

  /** The normalisation as evidently intended: every occurrence of the Admin
      key is dropped for a user without Admin. */
  function NormaliseRoleRequestIntended(hasAdmin: bool, adminRoleId: string, roleIds: seq<string>): seq<string>
  {
    if hasAdmin then
      if adminRoleId in roleIds then roleIds else roleIds + [adminRoleId]
    else FilterOut(roleIds, [adminRoleId])
  }

  /** With the intended normalisation Admin is kept by its holders and
      granted to nobody else, whatever the request holds. */
  lemma IntendedAdminProtection(pairs: set<UserRole>, known: set<string>, adminRoleId: string, userId: string, roleIds: seq<string>)
    ensures var hasAdmin := UserRole(userId, adminRoleId) in pairs;
      var after := ReassignRoles(pairs, known, userId, NormaliseRoleRequestIntended(hasAdmin, adminRoleId, roleIds));
      UserRole(userId, adminRoleId) in after <==> hasAdmin
  {
    var hasAdmin := UserRole(userId, adminRoleId) in pairs;
    var requested := NormaliseRoleRequestIntended(hasAdmin, adminRoleId, roleIds);
    if hasAdmin {
      assert adminRoleId in requested;
      assert UserRole(userId, adminRoleId) !in RolesToRemove(pairs, userId, requested);
    } else {
      assert adminRoleId !in Elements(requested);
    }
  }

  /** The worked example: U5 holds {R1, Admin} and asks for [R1]; the final
      roles are {R1, Admin} and the answer carries the advisory. */
  lemma AssignRolesExample()
    ensures var before := {UserRole("U5", "R1"), UserRole("U5", "A")};
      && RolesOfUser(AssignRolesOutcome(before, {"R1", "A"}, "A", "U5", ["R1"]), "U5") == {"R1", "A"}
      && RoleAdvisory(true, "A", ["R1"]) == map["error" := ["Can not unassign user from Admin role"]]
  {
    var before := {UserRole("U5", "R1"), UserRole("U5", "A")};
    assert RolesOfUser(before, "U5") == {"R1", "A"} by {
      assert UserRole("U5", "R1") in before && UserRole("U5", "A") in before;
    }
    var requested := NormaliseRoleRequest(true, "A", ["R1"]);
    assert requested == ["R1", "A"];
    assert Elements(requested) == {"R1", "A"} by {
      assert requested[0] == "R1" && requested[1] == "A";
    }
    ReassignRolesResult(before, {"R1", "A"}, "U5", requested);
  }

  // ----------------------------------------------------------------------
  // The service over its store
  // ----------------------------------------------------------------------

  /** The role service over the identity tables it reads and writes: the
      roles by key, the user keys and the join table. The Admin key is
      fixed at start-up. */
  class RoleService {
    const adminRoleId: string
    var roles: map<string, Role>
    var users: set<string>
    var userRoles: set<UserRole>

    ghost predicate Valid()
      reads this
    {
      AdminProtected(roles, adminRoleId)
    }

    constructor (adminRoleId: string, roles: map<string, Role>, users: set<string>, userRoles: set<UserRole>)
      requires AdminProtected(roles, adminRoleId)
      ensures Valid()
      ensures this.adminRoleId == adminRoleId && this.roles == roles
      ensures this.users == users && this.userRoles == userRoles
    {
      this.adminRoleId := adminRoleId;
      this.roles := roles;
      this.users := users;
      this.userRoles := userRoles;
    }

    /** CreateRoleAsync. The store's own outcome (it also refuses duplicate
        names) is `storeOk`; `newId` is the key it generates. */
    method CreateRole(roleName: Option<string>, newId: string, storeOk: bool) returns (r: Response<bool>)
      requires Valid()
      requires newId !in roles
      modifies this`roles
      ensures Valid()
      ensures CreateRoleRejection(roleName).Some? ==>
        r == CreateRoleRejection(roleName).value && roles == old(roles)
      ensures CreateRoleRejection(roleName).None? ==>
        && r == StoreAnswer(storeOk, "Role created", "Failed to create role")
        && roles == if storeOk then old(roles)[newId := Role(roleName.value, Upper(roleName.value))] else old(roles)
    {
      var rejection := CreateRoleRejection(roleName);
      if rejection.Some? {
        return rejection.value;
      }
      UpperOfAdmin();
      if storeOk {
        roles := roles[newId := Role(roleName.value, Upper(roleName.value))];
      }
      r := StoreAnswer(storeOk, "Role created", "Failed to create role");
    }

    /** UpdateRoleAsync: only the name changes, and the store normalises it. */
    method UpdateRole(roleId: string, role: Option<string>, storeOk: bool) returns (r: Response<bool>)
      requires Valid()
      modifies this`roles
      ensures Valid()
      ensures UpdateRoleRejection(old(roles), roleId, role).Some? ==>
        r == UpdateRoleRejection(old(roles), roleId, role).value && roles == old(roles)
      ensures UpdateRoleRejection(old(roles), roleId, role).None? ==>
        && r == StoreAnswer(storeOk, "Role updated", "Failed to update role")
        && roles == if storeOk then old(roles)[roleId := Role(role.value, Upper(role.value))] else old(roles)
    {
      var rejection := UpdateRoleRejection(roles, roleId, role);
      if rejection.Some? {
        return rejection.value;
      }
      UpperOfAdmin();
      if storeOk {
        roles := roles[roleId := Role(role.value, Upper(role.value))];
      }
      r := StoreAnswer(storeOk, "Role updated", "Failed to update role");
    }

    /** DeleteRoleAsync: the role goes, and with it its rows of the join
        table (the identity schema deletes them in cascade). */
    method DeleteRole(roleId: string, storeOk: bool) returns (r: Response<bool>)
      requires Valid()
      modifies this`roles, this`userRoles
      ensures Valid()
      ensures DeleteRoleRejection(old(roles), roleId).Some? ==>
        r == DeleteRoleRejection(old(roles), roleId).value && roles == old(roles) && userRoles == old(userRoles)
      ensures DeleteRoleRejection(old(roles), roleId).None? ==>
        && r == StoreAnswer(storeOk, "Role deleted", "Failed to delete role")
        && roles == (if storeOk then old(roles) - {roleId} else old(roles))
        && userRoles == if storeOk then set p | p in old(userRoles) && p.roleId != roleId else old(userRoles)
    {
      var rejection := DeleteRoleRejection(roles, roleId);
      if rejection.Some? {
        return rejection.value;
      }
      if storeOk {
        roles := roles - {roleId};
        userRoles := set p | p in userRoles && p.roleId != roleId;
      }
      r := StoreAnswer(storeOk, "Role deleted", "Failed to delete role");
    }

    /** AssignUsersToRoleAsync: the role's holders become the requested
        users; the rows of other roles, Admin's among them, stay. */
    method AssignUsersToRole(roleId: string, userIds: seq<string>) returns (r: Response<bool>)
      requires Valid()
      modifies this`userRoles
      ensures Valid() && roles == old(roles) && users == old(users)
      ensures AssignToRoleRejection(roles, roleId).Some? ==>
        r == AssignToRoleRejection(roles, roleId).value && userRoles == old(userRoles)
      ensures AssignToRoleRejection(roles, roleId).None? ==>
        && r == Response(true, Some(true), "Users assigned to role", map[], map[])
        && userRoles == ReassignUsers(old(userRoles), roleId, userIds)
      ensures UsersInRole(userRoles, adminRoleId) == UsersInRole(old(userRoles), adminRoleId)
    {
      var rejection := AssignToRoleRejection(roles, roleId);
      if rejection.Some? {
        return rejection.value;
      }
      var toRemove := UsersToRemove(userRoles, roleId, userIds);
      var toAdd := UsersToAdd(userRoles, roleId, userIds);
      ghost var before := userRoles;
      var kept := userRoles - toRemove;
      userRoles := kept;
      var pending := toAdd;
      while pending != {}
        invariant pending <= toAdd
        invariant userRoles == kept + set u | u in toAdd - pending :: UserRole(u, roleId)
        decreases pending
      {
        var u :| u in pending;
        // The re-check against the table (RoleService.cs:247) guards a race;
        // run alone, it never finds the row.
        if UserRole(u, roleId) !in userRoles {
          userRoles := userRoles + {UserRole(u, roleId)};
        }
        pending := pending - {u};
        assert toAdd - pending == (toAdd - (pending + {u})) + {u};
      }
      assert roleId != adminRoleId;
      forall p: UserRole | p.roleId == adminRoleId ensures p in userRoles <==> p in before {
        ReassignUsersFrame(before, roleId, userIds, p);
      }
      r := Response(true, Some(true), "Users assigned to role", map[], map[]);
    }

    /** AssignUserToRoleAsync: one row, inserted only when it is missing. */
    method AssignUserToRole(roleId: string, userId: string) returns (r: Response<bool>)
      requires Valid()
      modifies this`userRoles
      ensures Valid() && roles == old(roles) && users == old(users)
      ensures AssignToRoleRejection(roles, roleId).Some? ==>
        r == AssignToRoleRejection(roles, roleId).value && userRoles == old(userRoles)
      ensures AssignToRoleRejection(roles, roleId).None? ==>
        && userRoles == old(userRoles) + {UserRole(userId, roleId)}
        && r == Response(true, Some(true),
                         if UserRole(userId, roleId) in old(userRoles)
                         then "User " + userId + " already assigned to role"
                         else "Users assigned to role", map[], map[])
      ensures UsersInRole(userRoles, adminRoleId) == UsersInRole(old(userRoles), adminRoleId)
    {
      var rejection := AssignToRoleRejection(roles, roleId);
      if rejection.Some? {
        return rejection.value;
      }
      var current := UsersInRole(userRoles, roleId);
      if userId in current {
        assert UserRole(userId, roleId) in userRoles;
        return Response(true, Some(true), "User " + userId + " already assigned to role", map[], map[]);
      }
      assert UserRole(userId, roleId) !in userRoles;
      // The re-check of RoleService.cs:298 finds no row when run alone.
      userRoles := userRoles + {UserRole(userId, roleId)};
      r := Response(true, Some(true), "Users assigned to role", map[], map[]);
    }

    /** AssignRolesToUserAsync. The caller's list is normalised in place
        (Admin appended or one Admin key removed), then the user's roles are
        reconciled with it; unknown role keys are skipped. */
    method AssignRolesToUser(userId: string, roleIds: StringList) returns (r: Response<bool>)
      requires Valid()
      modifies this`userRoles, roleIds
      ensures Valid() && roles == old(roles) && users == old(users)
      ensures userId !in users ==>
        && r == Failed("User not found", map["user" := ["User not found"]])
        && userRoles == old(userRoles) && roleIds.items == old(roleIds.items)
      ensures userId in users ==>
        var hasAdmin := UserRole(userId, adminRoleId) in old(userRoles);
        && roleIds.items == NormaliseRoleRequest(hasAdmin, adminRoleId, old(roleIds.items))
        && userRoles == ReassignRoles(old(userRoles), roles.Keys, userId, roleIds.items)
        && r == Response(true, Some(true), "Roles assigned to user", map[],
                         RoleAdvisory(hasAdmin, adminRoleId, old(roleIds.items)))
    {
      if userId !in users {
        return Failed("User not found", map["user" := ["User not found"]]);
      }
      var current := RolesOfUser(userRoles, userId);
      // The Admin role as read from the table (RoleService.cs:331); by the
      // invariant it is the cached key used at RoleService.cs:352.
      var admin :| admin in roles && roles[admin].normalizedName == AdminNormalizedRoleName;
      assert admin == adminRoleId;
      var hasAdmin := UserRole(userId, admin) in userRoles;
      var extra: map<string, seq<string>> := map[];
      if hasAdmin {
        if admin !in roleIds.items {
          extra := map["error" := ["Can not unassign user from Admin role"]];
          roleIds.Add(admin);
        }
      } else {
        if adminRoleId in roleIds.items {
          extra := map["error" := ["Can not assign user to Admin role"]];
          var _ := roleIds.Remove(adminRoleId);
        }
      }
      var requested := roleIds.items;
      var toRemove := RolesToRemove(userRoles, userId, requested);
      var toAdd := Elements(requested) - current;
      var kept := userRoles - toRemove;
      userRoles := kept;
      var pending := toAdd;
      while pending != {}
        invariant pending <= toAdd
        invariant roleIds.items == requested
        invariant userRoles == kept + set x | x in (toAdd - pending) * roles.Keys :: UserRole(userId, x)
        decreases pending
      {
        var x :| x in pending;
        if x in roles {
          userRoles := userRoles + {UserRole(userId, x)};
        }
        pending := pending - {x};
        assert toAdd - pending == (toAdd - (pending + {x})) + {x};
      }
      r := Response(true, Some(true), "Roles assigned to user", map[], extra);
    }
  }
}
