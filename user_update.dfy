/** The user-update command handler: validation (username lock, password
    replacement), the profile overwrite, and the reconciliation of the
    user's role names with the requested ones, including the rule that the
    Admin role can be neither granted nor taken away through this command. */
module UserUpdate {
  import opened Common
  import opened Lists
  import opened Text
  import opened Users
  import Roles

  const UsernameLocked: Response<UserView> :=
    Response(false, None, "Username cannot be changed.", map[], map[])

  function PasswordNotUpdated(view: UserView): Response<UserView>
  {
    Response(false, Some(view), "Unable to update password", map[], map[])
  }

  function UserNotFound(view: UserView): Response<UserView>
  {
    Response(false, Some(view), "User not found", map[], map[])
  }

  /** True when the request carries a new password (not null, not ""). */
  predicate NewPassword(password: Option<string>)
  {
    password.Some? && password.value != ""
  }

  // ---------------------------------------------------------------------
  // Validation
  // ---------------------------------------------------------------------

  /** The verdict of ValidateAsync as written. `userFound` says whether
      FindByIdAsync found the user; the not-found result is built but never
      returned, so a missing user only shows when RemovePasswordAsync is
      handed null. `removeOk`/`addOk` are the answers of RemovePasswordAsync
      and AddPasswordAsync. */
  function UpdateValidation(routeUsername: string, view: UserView, userFound: bool,
                            newPassword: bool, removeOk: bool, addOk: bool): (step: Step<UserView>)
    ensures step.Reject? ==> !step.response.succeeded
    ensures view.username != routeUsername ==> step == Reject(UsernameLocked)
    ensures step.Pass? <==>
      view.username == routeUsername && (!newPassword || (userFound && removeOk && addOk))
    ensures step.Throw? <==> view.username == routeUsername && newPassword && !userFound
  {
    if view.username != routeUsername then Reject(UsernameLocked)
    else if newPassword && !userFound then Throw(ArgumentNull)
    else if newPassword && !removeOk then Reject(PasswordNotUpdated(view))
    else if newPassword && !addOk then Reject(PasswordNotUpdated(view))
    else Pass
  }

  /** As written, a request for a user that does not exist, with the route
      username and no password, passes validation. */
  lemma MissingUserPassesValidation(routeUsername: string, email: string)
    ensures UpdateValidation(routeUsername, UserView(routeUsername, email), false, false, true, true) == Pass
  {
  }

  /** The validation as evidently intended: the not-found result is
      returned before anything else is looked at. */
  function UpdateValidationIntended(routeUsername: string, view: UserView, userFound: bool,
                                    newPassword: bool, removeOk: bool, addOk: bool): Step<UserView>
  {
    if !userFound then Reject(UserNotFound(view))
    else UpdateValidation(routeUsername, view, userFound, newPassword, removeOk, addOk)
  }

  /** With the intended validation only an existing user reaches the
      handling step, nothing throws, and a missing user is answered with
      "User not found". */
  lemma IntendedValidationNeedsUser(routeUsername: string, view: UserView, userFound: bool,
                                    newPassword: bool, removeOk: bool, addOk: bool)
    ensures var step := UpdateValidationIntended(routeUsername, view, userFound, newPassword, removeOk, addOk);
      && (step.Pass? ==> userFound)
      && !step.Throw?
      && (!userFound ==> step == Reject(UserNotFound(view)))
  {
  }

  /** The stored credential after the password replacement as written: the
      old password is removed first, so when removing succeeds and adding
      the new one fails, the user is left with no password. */
  function PasswordAfterUpdate(current: Option<string>, password: string,
                               removeOk: bool, addOk: bool): (r: Option<string>)
    ensures removeOk && addOk ==> r == Some(password)
    ensures !removeOk ==> r == current
    ensures r != current && r != Some(password) ==> r == None
  {
    if !removeOk then current
    else if addOk then Some(password)
    else None
  }

  lemma PasswordLostWhenAddFails(current: string, password: string)
    ensures PasswordAfterUpdate(Some(current), password, true, false) == None
  {
  }

  /** The replacement as evidently intended: all or nothing. */
  function PasswordAfterUpdateIntended(current: Option<string>, password: string,
                                       removeOk: bool, addOk: bool): Option<string>
  {
    if removeOk && addOk then Some(password) else current
  }

  /** With the intended replacement the credential is the new password
      exactly when both steps succeed, and is otherwise left alone; a user
      who had a password never ends up without one. */
  lemma IntendedPasswordAllOrNothing(current: Option<string>, password: string,
                                     removeOk: bool, addOk: bool)
    ensures var after := PasswordAfterUpdateIntended(current, password, removeOk, addOk);
      && (removeOk && addOk ==> after == Some(password))
      && (!(removeOk && addOk) ==> after == current)
      && (current.Some? ==> after.Some?)
  {
  }

  /** ValidateAsync. `found` is FindByIdAsync's answer for the route
      username. On the username check's success the payload's null role
      list becomes empty; a new password replaces the stored one. The
      validated user is returned for the handling step. */
  method ValidateUpdate(routeUsername: string, payload: UserModel, found: ApplicationUser?,
                        removeOk: bool, addOk: bool)
    returns (step: Step<UserView>, user: ApplicationUser?)
    modifies payload`roles, found
    ensures step == UpdateValidation(routeUsername, UserView(payload.username, payload.email),
                                     found != null, NewPassword(payload.password), removeOk, addOk)
    ensures user == (if step.Pass? then found else null)
    ensures payload.username != routeUsername ==> payload.roles == old(payload.roles)
    ensures payload.username == routeUsername ==>
      && payload.roles != null
      && (old(payload.roles) != null ==> payload.roles == old(payload.roles))
      && (old(payload.roles) == null ==> fresh(payload.roles) && payload.roles.items == [])
    ensures found != null ==>
      && found.userName == old(found.userName) && found.email == old(found.email)
      && found.phoneNumber == old(found.phoneNumber) && found.fullName == old(found.fullName)
      && found.teamId == old(found.teamId)
      && found.password ==
           if payload.username == routeUsername && NewPassword(payload.password)
           then PasswordAfterUpdate(old(found.password), payload.password.value, removeOk, addOk)
           else old(found.password)
  {
    var view := UserView(payload.username, payload.email);
    if payload.username != routeUsername {
      return Reject(UsernameLocked), null;
    }
    if payload.roles == null {
      payload.roles := new StringList([]);
    }
    if NewPassword(payload.password) {
      if found == null {
        return Throw(ArgumentNull), null;
      }
      if !removeOk {
        return Reject(PasswordNotUpdated(view)), null;
      }
      found.password := None;
      if !addOk {
        return Reject(PasswordNotUpdated(view)), null;
      }
      found.password := payload.password;
    }
    step, user := Pass, found;
  }

  // ---------------------------------------------------------------------
  // Role reconciliation
  // ---------------------------------------------------------------------

  /** The role names the user should end with, as written: Admin is
      appended when the user holds it, otherwise its first occurrence is
      removed; then duplicates go. */
  function DesiredRoleNames(hasAdmin: bool, requested: seq<string>): (r: seq<string>)
    ensures NoDuplicates(r)
    ensures hasAdmin ==> Roles.AdminRoleName in r
    ensures forall n :: n in r ==> n in requested || n == Roles.AdminRoleName
  {
    var l := if hasAdmin then requested + [Roles.AdminRoleName] else RemoveFirst(requested, Roles.AdminRoleName);
    RemoveFirstSubset(requested, Roles.AdminRoleName);
    assert forall n :: n in l ==> n in Elements(l);
    assert hasAdmin ==> l[|requested|] == Roles.AdminRoleName;
    assert forall n :: n in l ==> n in requested || n == Roles.AdminRoleName;
    var r := Dedup(l);
    assert forall n :: n in Elements(r) <==> n in r;
    assert forall n :: n in Elements(l) ==> n in l;
    r
  }

  /** The roles, by normalised name, the user holds after
      RemoveFromRolesAsync(removed) and then AddToRolesAsync(added) both
      succeed: the identity store resolves every name by its normalised
      form. */
  function RolesAfterUpdate(existing: seq<string>, removed: seq<string>, added: seq<string>): set<string>
  {
    (Roles.NormalisedNames(existing) - Roles.NormalisedNames(removed)) + Roles.NormalisedNames(added)
  }

  /** What GetRolesAsync answers: one name per role held, no two naming the
      same role, and the Admin role under its seeded name "Admin". */
  predicate StoredRoleNames(existing: seq<string>)
  {
    && Roles.DistinctNormalised(existing)
    && forall n :: n in existing && Upper(n) == Roles.AdminNormalizedRoleName ==> n == Roles.AdminRoleName
  }

  /** Removing existing − desired and adding desired − existing leaves the
      user with exactly the roles the desired names resolve to; the names in
      both lists are in neither call. */
  lemma UpdateReconciles(existing: seq<string>, desired: seq<string>)
    requires Roles.DistinctNormalised(existing)
    ensures RolesAfterUpdate(existing, FilterOut(existing, desired), Except(desired, existing))
            == Roles.NormalisedNames(desired)
    ensures forall x :: x in existing && x in desired ==>
              x !in FilterOut(existing, desired) && x !in Except(desired, existing)
  {
    var removed := FilterOut(existing, desired);
    var added := Except(desired, existing);
    var after := RolesAfterUpdate(existing, removed, added);
    assert forall x :: x in removed <==> x in Elements(removed);
    assert forall x :: x in added <==> x in Elements(added);
    forall y | y in after ensures y in Roles.NormalisedNames(desired) {
      if y in Roles.NormalisedNames(added) {
        var a :| a in added && Upper(a) == y;
        assert a in desired;
      } else {
        var e :| e in existing && Upper(e) == y;
        assert e !in removed;
        assert e in desired;
      }
    }
    forall y | y in Roles.NormalisedNames(desired) ensures y in after {
      var d :| d in desired && Upper(d) == y;
      if d in existing {
        forall r | r in removed ensures Upper(r) != y {
          assert r in existing && r != d;
          DistinctNamesDistinctRoles(existing, r, d);
        }
      } else {
        assert d in added;
      }
    }
  }

  /** Two different stored names resolve to different roles. */
  lemma DistinctNamesDistinctRoles(existing: seq<string>, a: string, b: string)
    requires Roles.DistinctNormalised(existing)
    requires a in existing && b in existing && a != b
    ensures Upper(a) != Upper(b)
  {
    var i :| 0 <= i < |existing| && existing[i] == a;
    var j :| 0 <= j < |existing| && existing[j] == b;
  }

  /** The desired names: every requested name but Admin, plus Admin exactly
      when the user holds it or the request names it twice or more. */
  lemma DesiredRoleNamesElements(hasAdmin: bool, requested: seq<string>)
    ensures Elements(DesiredRoleNames(hasAdmin, requested)) - {Roles.AdminRoleName} == Elements(requested) - {Roles.AdminRoleName}
    ensures Roles.AdminRoleName in DesiredRoleNames(hasAdmin, requested) <==>
              hasAdmin || multiset(requested)[Roles.AdminRoleName] >= 2
  {
    var d := DesiredRoleNames(hasAdmin, requested);
    assert Roles.AdminRoleName in d <==> Roles.AdminRoleName in Elements(d);
    if hasAdmin {
      assert Elements(requested + [Roles.AdminRoleName]) == Elements(requested) + {Roles.AdminRoleName};
    } else {
      RemoveFirstLeaves(requested, Roles.AdminRoleName);
      assert Roles.AdminRoleName in RemoveFirst(requested, Roles.AdminRoleName) <==> Roles.AdminRoleName in Elements(RemoveFirst(requested, Roles.AdminRoleName));
    }
  }

  /** A user who holds Admin keeps it whatever the request says. */
  lemma UpdateKeepsAdmin(existing: seq<string>, requested: seq<string>)
    requires Roles.DistinctNormalised(existing)
    requires Roles.AdminRoleName in existing
    ensures var desired := DesiredRoleNames(Roles.AdminRoleName in existing, requested);
      Roles.AdminNormalizedRoleName in RolesAfterUpdate(existing, FilterOut(existing, desired), Except(desired, existing))
  {
    var desired := DesiredRoleNames(true, requested);
    Roles.UpperOfAdmin();
    UpdateReconciles(existing, desired);
    assert Upper(Roles.AdminRoleName) in Roles.NormalisedNames(desired);
  }

  /** A user without Admin does not get it from a request that names it
      once, in its exact spelling, and spells no other name that resolves
      to it. */
  lemma UpdateAdminNotGrantedOnce(existing: seq<string>, requested: seq<string>)
    requires Roles.DistinctNormalised(existing)
    requires Roles.AdminNormalizedRoleName !in Roles.NormalisedNames(existing)
    requires multiset(requested)[Roles.AdminRoleName] <= 1
    requires forall n :: n in requested && Upper(n) == Roles.AdminNormalizedRoleName ==> n == Roles.AdminRoleName
    ensures var desired := DesiredRoleNames(Roles.AdminRoleName in existing, requested);
      Roles.AdminNormalizedRoleName !in RolesAfterUpdate(existing, FilterOut(existing, desired), Except(desired, existing))
  {
    Roles.UpperOfAdmin();
    assert forall n :: n in existing ==> Upper(n) in Roles.NormalisedNames(existing);
    assert Roles.AdminRoleName !in existing;
    var desired := DesiredRoleNames(false, requested);
    DesiredRoleNamesElements(false, requested);
    UpdateReconciles(existing, desired);
    forall d | d in desired ensures Upper(d) != Roles.AdminNormalizedRoleName {
      assert d in Elements(desired);
      if d != Roles.AdminRoleName {
        assert d in Elements(requested);
      }
    }
  }

  /** As written, a request naming Admin twice grants it to a user who does
      not hold it. */
  lemma UpdateAdminGrantedByDuplicate(existing: seq<string>)
    requires Roles.DistinctNormalised(existing)
    requires Roles.AdminNormalizedRoleName !in Roles.NormalisedNames(existing)
    ensures var desired := DesiredRoleNames(Roles.AdminRoleName in existing, [Roles.AdminRoleName, Roles.AdminRoleName]);
      && Roles.AdminRoleName in Except(desired, existing)
      && Roles.AdminNormalizedRoleName in RolesAfterUpdate(existing, FilterOut(existing, desired), Except(desired, existing))
  {
    Roles.UpperOfAdmin();
    assert forall n :: n in existing ==> Upper(n) in Roles.NormalisedNames(existing);
    assert Roles.AdminRoleName !in existing;
    var desired := DesiredRoleNames(false, [Roles.AdminRoleName, Roles.AdminRoleName]);
    DesiredRoleNamesElements(false, [Roles.AdminRoleName, Roles.AdminRoleName]);
    assert Roles.AdminRoleName in Elements(Except(desired, existing));
    UpdateReconciles(existing, desired);
    assert Upper(Roles.AdminRoleName) in Roles.NormalisedNames(desired);
  }

  /** As written, a single "admin" grants Admin to a user who does not hold
      it: the exact-spelling Remove leaves it, and the identity store
      resolves it to the Admin role. */
  lemma UpdateAdminGrantedByLowerCase(existing: seq<string>)
    requires Roles.DistinctNormalised(existing)
    requires Roles.AdminNormalizedRoleName !in Roles.NormalisedNames(existing)
    ensures var desired := DesiredRoleNames(Roles.AdminRoleName in existing, ["admin"]);
      && "admin" in Except(desired, existing)
      && Roles.AdminNormalizedRoleName in RolesAfterUpdate(existing, FilterOut(existing, desired), Except(desired, existing))
  {
    Roles.UpperOfAdmin();
    assert forall n :: n in existing ==> Upper(n) in Roles.NormalisedNames(existing);
    assert Roles.AdminRoleName !in existing;
    assert "admin" !in existing;
    var desired := DesiredRoleNames(false, ["admin"]);
    assert RemoveFirst(["admin"], Roles.AdminRoleName) == ["admin"] by {
      assert ["admin"][0] != Roles.AdminRoleName;
      assert ["admin"][1..] == [];
    }
    assert "admin" in Elements(["admin"]);
    assert "admin" in Elements(desired);
    assert "admin" in Elements(Except(desired, existing));
    UpdateReconciles(existing, desired);
    assert Upper("admin") in Roles.NormalisedNames(desired);
  }

  /** The desired names as evidently intended: every name that resolves to
      Admin is filtered out when the user does not hold it. */
  function DesiredRoleNamesIntended(hasAdmin: bool, requested: seq<string>): seq<string>
  {
    Dedup(if hasAdmin then requested + [Roles.AdminRoleName] else Roles.WithoutAdminSpellings(requested))
  }

  /** With the intended filter the update never changes whether the user
      holds Admin, and the user ends with every other requested role. */
  lemma IntendedUpdateAdminProtection(existing: seq<string>, requested: seq<string>)
    requires StoredRoleNames(existing)
    ensures var desired := DesiredRoleNamesIntended(Roles.AdminRoleName in existing, requested);
      var after := RolesAfterUpdate(existing, FilterOut(existing, desired), Except(desired, existing));
      && (Roles.AdminNormalizedRoleName in after <==> Roles.AdminNormalizedRoleName in Roles.NormalisedNames(existing))
      && after - {Roles.AdminNormalizedRoleName} == Roles.NormalisedNames(requested) - {Roles.AdminNormalizedRoleName}
  {
    Roles.UpperOfAdmin();
    var hasAdmin := Roles.AdminRoleName in existing;
    var desired := DesiredRoleNamesIntended(hasAdmin, requested);
    UpdateReconciles(existing, desired);
    var nd := Roles.NormalisedNames(desired);
    var nr := Roles.NormalisedNames(requested);
    if hasAdmin {
      var l := requested + [Roles.AdminRoleName];
      assert Elements(l) == Elements(requested) + {Roles.AdminRoleName};
      Roles.NormalisedNamesOfElements(desired, l);
      assert Upper(Roles.AdminRoleName) in Roles.NormalisedNames(existing);
      assert Roles.NormalisedNames(l) == nr + {Roles.AdminNormalizedRoleName} by {
        assert Upper(l[|requested|]) == Roles.AdminNormalizedRoleName;
      }
    } else {
      var w := Roles.WithoutAdminSpellings(requested);
      Roles.NormalisedNamesOfElements(desired, w);
      assert Roles.AdminNormalizedRoleName !in Roles.NormalisedNames(existing);
      forall y | y in nr - {Roles.AdminNormalizedRoleName} ensures y in nd {
        var n :| n in requested && Upper(n) == y;
        assert n in w;
      }
    }
  }

  /** The advisories attached under "error": one per identity call that
      was made and failed. */
  function UpdateAdvisories(removed: seq<string>, added: seq<string>, removeOk: bool, addOk: bool): seq<string>
  {
    (if |removed| > 0 && !removeOk then ["Failed to remove roles"] else [])
    + (if |added| > 0 && !addOk then ["Failed to add roles"] else [])
  }

  /** The answer of HandleAsync. Success follows the profile update, the
      message says the opposite (the source swaps the success and error
      messages), and the advisories sit under "error". */
  function UpdateAnswer(updateOk: bool, view: UserView, advisories: seq<string>): (r: Response<UserView>)
    ensures r.succeeded == updateOk && r.payload == Some(view)
    ensures r.message == "User updated" <==> !updateOk
    ensures "error" in r.extra && r.extra["error"] == advisories
  {
    Response(updateOk, Some(view), if updateOk then "User update failed" else "User updated",
             map[], map["error" := advisories])
  }

  /** The roles, by normalised name, the user holds when AddToRolesAsync
      runs: the removal has gone through when it succeeded. */
  function HeldBeforeAdd(existing: seq<string>, removed: seq<string>, removeOk: bool): set<string>
  {
    if |removed| > 0 && removeOk then Roles.NormalisedNames(existing) - Roles.NormalisedNames(removed)
    else Roles.NormalisedNames(existing)
  }

  /** HandleAsync. `user` is the user validation handed over (null when the
      user was missing); `updateOk` is UpdateAsync's answer, `existing` is
      GetRolesAsync's, `known` holds the normalised names of the stored
      roles, `removeOk`/`addOk` are the answers of RemoveFromRolesAsync and
      AddToRolesAsync when it does not throw. Returns the names passed to
      those two calls (empty when a call is not made). */
  method HandleUpdate(payload: UserModel, user: ApplicationUser?, updateOk: bool,
                      existing: seq<string>, known: set<string>, removeOk: bool, addOk: bool)
    returns (o: Outcome<UserView>, removed: seq<string>, added: seq<string>)
    modifies payload`roles, payload.roles, user
    ensures user == null ==> o == Threw(NullReference) && payload.roles == old(payload.roles)
    ensures user == null || !updateOk || old(payload.roles) == null ==> removed == [] && added == []
    ensures user != null ==>
      && user.email == payload.email && user.phoneNumber == payload.phoneNumber
      && user.fullName == payload.fullName && user.teamId == payload.teamId
      && user.userName == old(user.userName) && user.password == old(user.password)
    ensures user != null && !updateOk ==>
      && o == Returned(UpdateAnswer(false, UserView(payload.username, payload.email), []))
      && payload.roles == old(payload.roles)
      && (payload.roles != null ==> payload.roles.items == old(payload.roles.items))
    ensures user != null && updateOk && old(payload.roles) == null ==> o == Threw(NullReference)
    ensures user != null && updateOk && old(payload.roles) != null ==>
      var desired := DesiredRoleNames(Roles.AdminRoleName in existing, old(payload.roles.items));
      && payload.roles != null && payload.roles.items == desired
      && removed == FilterOut(existing, desired)
      && added == Except(desired, existing)
      && o == (if |added| > 0 && Roles.AddToRolesThrows(added, HeldBeforeAdd(existing, removed, removeOk), known)
               then Threw(InvalidOperation)
               else Returned(UpdateAnswer(true, UserView(payload.username, payload.email),
                                          UpdateAdvisories(removed, added, removeOk, addOk))))
  {
    removed, added := [], [];
    var advisories: seq<string> := [];
    if user == null {
      return Threw(NullReference), removed, added;
    }
    user.email := payload.email;
    user.phoneNumber := payload.phoneNumber;
    user.fullName := payload.fullName;
    user.teamId := payload.teamId;
    if updateOk {
      var hasAdmin := Roles.AdminRoleName in existing;
      if payload.roles == null {
        return Threw(NullReference), removed, added;
      }
      if !hasAdmin {
        var _ := payload.roles.Remove(Roles.AdminRoleName);
      } else {
        payload.roles.Add(Roles.AdminRoleName);
      }
      payload.roles := new StringList(Dedup(payload.roles.items));
      removed := FilterOut(existing, payload.roles.items);
      if |removed| > 0 && !removeOk {
        advisories := advisories + ["Failed to remove roles"];
      }
      added := Except(payload.roles.items, existing);
      if |added| > 0 {
        if Roles.AddToRolesThrows(added, HeldBeforeAdd(existing, removed, removeOk), known) {
          return Threw(InvalidOperation), removed, added;
        }
        if !addOk {
          advisories := advisories + ["Failed to add roles"];
        }
      }
      assert advisories == UpdateAdvisories(removed, added, removeOk, addOk);
    }
    o := Returned(UpdateAnswer(updateOk, UserView(payload.username, payload.email), advisories));
  }

  /** The whole command: validation, then handling when it passes. As
      written, an existing route username with no user behind it and no
      password gets through validation and makes the handling step throw. */
  method ExecuteUpdate(routeUsername: string, payload: UserModel, found: ApplicationUser?,
                       removePasswordOk: bool, addPasswordOk: bool, updateOk: bool,
                       existing: seq<string>, known: set<string>, removeOk: bool, addOk: bool)
    returns (o: Outcome<UserView>)
    modifies payload`roles, payload.roles, found
    ensures var step := UpdateValidation(routeUsername, UserView(old(payload.username), old(payload.email)),
                                         found != null, NewPassword(old(payload.password)),
                                         removePasswordOk, addPasswordOk);
      && (step.Reject? ==> o == Returned(step.response))
      && (step.Throw? ==> o == Threw(step.exception))
      && (step.Pass? && found == null ==> o == Threw(NullReference))
      && (step.Pass? && found != null ==>
            && (o.Returned? ==> o.response.succeeded == updateOk)
            && (o.Threw? ==> updateOk && o.exception == InvalidOperation))
  {
    var step, user := ValidateUpdate(routeUsername, payload, found, removePasswordOk, addPasswordOk);
    match step {
      case Reject(r) => o := Returned(r);
      case Throw(e) => o := Threw(e);
      case Pass =>
        var removed, added;
        o, removed, added := HandleUpdate(payload, user, updateOk, existing, known, removeOk, addOk);
    }
  }
}
