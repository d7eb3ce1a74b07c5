/** The user-create command handler: the validator's verdict, the password
    guard, the creation of the identity user and the sanitising of the
    requested role names before they are handed to the identity store. */
module UserCreate {
  import opened Common
  import opened Text
  import opened Lists
  import opened Users
  import Roles

  /** The validator of the create command: Payload.Id must be empty (null,
      "" or white space). The message is the validation library's default. */
  function CreateValidatorErrors(id: Option<string>): map<string, seq<string>>
  {
    if id.None? || IsBlank(id.value) then map[]
    else map["Payload.Id" := ["'Payload Id' must be empty."]]
  }

  /** ValidateAsync: a failing validator answers "Validation error." with
      the validator's errors; otherwise the command goes on. */
  function ValidateCreate(id: Option<string>): (step: Step<UserView>)
    ensures step.Pass? <==> id.None? || IsBlank(id.value)
    ensures step.Reject? ==>
      && step.response.message == "Validation error."
      && !step.response.succeeded
      && step.response.errors == CreateValidatorErrors(id)
      && |step.response.errors| > 0
  {
    var errors := CreateValidatorErrors(id);
    if |errors| != 0 then Reject(Response(false, None, "Validation error.", errors, map[]))
    else Pass
  }

  /** The role names passed to AddToRolesAsync: Distinct first, then
      List.Remove("Admin"). */
  function SanitisedRoles(roles: seq<string>): (r: seq<string>)
    ensures forall n :: n in r ==> n in roles
    ensures NoDuplicates(r)
  {
    var d := Dedup(roles);
    RemoveFirstSubset(d, Roles.AdminRoleName);
    assert forall n :: n in d ==> n in Elements(d);
    assert NoDuplicates(RemoveFirst(d, Roles.AdminRoleName)) by {
      RemoveFirstKeepsNoDuplicates(d, Roles.AdminRoleName);
    }
    RemoveFirst(d, Roles.AdminRoleName)
  }

  /** Because duplicates go before the single Remove, the exact name Admin
      never reaches the identity store at creation, and every other
      requested name does, once. */
  lemma SanitisedRolesDropAdmin(roles: seq<string>)
    ensures Roles.AdminRoleName !in SanitisedRoles(roles)
    ensures Elements(SanitisedRoles(roles)) == Elements(roles) - {Roles.AdminRoleName}
  {
    var d := Dedup(roles);
    NoDuplicatesBag(d, Roles.AdminRoleName);
    RemoveFirstLeaves(d, Roles.AdminRoleName);
  }

  /** As written, the filter compares names exactly, while the identity
      store resolves a role name by its upper-cased form: "admin" is kept
      and names the Admin role. */
  lemma SanitisedRolesKeepLowerCaseAdmin()
    ensures SanitisedRoles(["admin"]) == ["admin"]
    ensures Upper("admin") == Roles.AdminNormalizedRoleName
  {
    assert Dedup(["admin"]) == ["admin"] by {
      assert ["admin"][..0] == [];
    }
    assert Upper("admin")[..] == Roles.AdminNormalizedRoleName;
  }

  /** The sanitising as evidently intended: no spelling of Admin survives. */
  function SanitisedRolesIntended(roles: seq<string>): seq<string>
  {
    Dedup(Roles.WithoutAdminSpellings(roles))
  }

  /** With the intended sanitising no name handed to the identity store
      resolves to the Admin role, and every other name is handed over. */
  lemma SanitisedRolesIntendedDropAdmin(roles: seq<string>)
    ensures forall n :: n in SanitisedRolesIntended(roles) ==> Upper(n) != Roles.AdminNormalizedRoleName
    ensures forall n :: n in roles && Upper(n) != Roles.AdminNormalizedRoleName ==> n in SanitisedRolesIntended(roles)
  {
    var w := Roles.WithoutAdminSpellings(roles);
    assert Elements(Dedup(w)) == Elements(w);
    forall n | n in SanitisedRolesIntended(roles) ensures Upper(n) != Roles.AdminNormalizedRoleName {
      assert n in Elements(Dedup(w));
    }
    forall n | n in roles && Upper(n) != Roles.AdminNormalizedRoleName ensures n in SanitisedRolesIntended(roles) {
      assert n in Elements(w);
    }
  }

  /** The answer of HandleAsync once the password is present. */
  function CreateAnswer(createOk: bool, username: string, email: string): Response<UserView>
  {
    Response(createOk, Some(UserView(username, email)),
             if createOk then "User created" else "User creation failed", map[], map[])
  }

  const PasswordRequired: Response<UserView> :=
    Response(false, None, "Validation failure", map["password" := ["Password field is required"]], map[])

  /** HandleAsync. `createOk` is the identity store's answer to creating the
      user and `newId` the key it gives it; `known` holds the normalised
      names of the stored roles. Returns the created user (null when nothing
      was created) and the role names handed to AddToRolesAsync (None when
      it was not called). A failed role assignment is ignored, but a name
      that resolves to no role makes that call throw. */
  method HandleCreate(payload: UserModel, newId: string, createOk: bool, known: set<string>)
    returns (o: Outcome<UserView>, created: ApplicationUser?, roleNames: Option<seq<string>>)
    modifies payload`roles
    ensures payload.password.None? || payload.password.value == "" ==>
      && o == Returned(PasswordRequired) && created == null && roleNames == None
      && payload.roles == old(payload.roles)
    ensures payload.password.Some? && payload.password.value != "" ==>
      var requested := if old(payload.roles) == null then [] else old(payload.roles.items);
      && payload.roles != null
      && (createOk ==> payload.roles.items == SanitisedRoles(requested))
      && (!createOk ==> payload.roles.items == requested)
      && roleNames == (if createOk then Some(SanitisedRoles(requested)) else None)
      && o == (if createOk && Roles.AddToRolesThrows(SanitisedRoles(requested), {}, known)
               then Threw(InvalidOperation)
               else Returned(CreateAnswer(createOk, payload.username, payload.email)))
      && (createOk ==> created != null && fresh(created) && created.id == newId
                       && created.userName == payload.username && created.email == payload.email
                       && created.phoneNumber == payload.phoneNumber && created.password == payload.password)
      && (!createOk ==> created == null)
  {
    if payload.password.None? || payload.password.value == "" {
      return Returned(PasswordRequired), null, None;
    }
    var identityUser := new ApplicationUser(newId, payload.username, payload.email, payload.phoneNumber);
    if payload.roles == null {
      payload.roles := new StringList([]);
    }
    created, roleNames := null, None;
    if createOk {
      identityUser.password := payload.password;
      created := identityUser;
      payload.roles := new StringList(Dedup(payload.roles.items));
      var _ := payload.roles.Remove(Roles.AdminRoleName);
      roleNames := Some(payload.roles.items);
      if Roles.AddToRolesThrows(payload.roles.items, {}, known) {
        return Threw(InvalidOperation), created, roleNames;
      }
    }
    o := Returned(CreateAnswer(createOk, payload.username, payload.email));
  }

  /** A new user holds no role, so creation ends in an exception exactly
      when one of the sanitised names resolves to no stored role. */
  lemma CreateThrowsOnUnknownRole(roles: seq<string>, known: set<string>)
    requires Roles.DistinctNormalised(SanitisedRoles(roles))
    ensures Roles.AddToRolesThrows(SanitisedRoles(roles), {}, known) <==>
      exists n :: n in SanitisedRoles(roles) && Upper(n) !in known
  {
    var r := SanitisedRoles(roles);
    Roles.AddToRolesThrowsExactly(r, {}, known);
    if exists n :: n in r && Upper(n) !in known {
      var n :| n in r && Upper(n) !in known;
      var i :| 0 <= i < |r| && r[i] == n;
    }
  }
}
