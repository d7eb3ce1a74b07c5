/** The team-assign command handler: the payload and team-existence guards,
    then the bulk update that moves the selected users into the team. */
module TeamAssign {
  import opened Common
  import opened Users

  const PayloadEmpty: map<string, seq<string>> := map["Payload" := ["'Payload' must not be empty."]]
  const TeamNotFound: map<string, seq<string>> := map["Id" := ["Not found."]]

  /** The validator: the payload must be neither null nor empty (the
      emptiness rule depends on the null rule, so one error at most). */
  function TeamAssignValidatorErrors(payload: Option<seq<string>>): map<string, seq<string>>
  {
    if payload.None? || payload.value == [] then PayloadEmpty else map[]
  }

  /** ValidateAsync: the validator first, then the team lookup (`teamExists`
      is the repository's answer). */
  function TeamAssignValidation(payload: Option<seq<string>>, teamExists: bool): (step: Step<bool>)
    ensures step.Pass? <==> payload.Some? && payload.value != [] && teamExists
    ensures !step.Throw?
    ensures step.Reject? ==>
      && !step.response.succeeded
      && step.response.message == "Validation error."
      && step.response.errors == (if payload.None? || payload.value == [] then PayloadEmpty else TeamNotFound)
  {
    var errors := TeamAssignValidatorErrors(payload);
    if |errors| != 0 then Reject(Response(false, None, "Validation error.", errors, map[]))
    else if !teamExists then Reject(Response(false, None, "Validation error.", TeamNotFound, map[]))
    else Pass
  }

  /** A bad payload is reported whatever the team id: the lookup is not
      reached. */
  lemma PayloadCheckedFirst(payload: Option<seq<string>>, exists1: bool, exists2: bool)
    requires payload.None? || payload.value == []
    ensures TeamAssignValidation(payload, exists1) == TeamAssignValidation(payload, exists2)
  {
  }

  const Assigned: Response<bool> := Response(true, Some(true), "Assigned successfully.", map[], map[])

  /** The team a user with key `id` and team `team` has after the command. */
  function TeamAfterAssign(id: string, team: int, payload: seq<string>, teamId: int): (r: int)
    ensures id in payload ==> r == teamId
    ensures id !in payload ==> r == team
  {
    if id in payload then teamId else team
  }

  /** Running the same command twice leaves every user where running it
      once did. */
  lemma TeamAssignIdempotent(id: string, team: int, payload: seq<string>, teamId: int)
    ensures TeamAfterAssign(id, TeamAfterAssign(id, team, payload, teamId), payload, teamId)
            == TeamAfterAssign(id, team, payload, teamId)
  {
  }

  /** GetAllAsync(x => payload.Contains(x.Id)): the stored users whose key
      the payload names, in store order. Ids naming no user select nothing. */
  function SelectUsers(users: seq<ApplicationUser>, payload: seq<string>): (r: seq<ApplicationUser>)
    ensures forall i :: 0 <= i < |r| ==> r[i] in users && r[i].id in payload
    ensures forall i :: 0 <= i < |users| && users[i].id in payload ==> users[i] in r
  {
    if users == [] then []
    else
      var rest := SelectUsers(users[1..], payload);
      assert forall i :: 1 <= i < |users| ==> users[i] == users[1..][i - 1];
      if users[0].id in payload then [users[0]] + rest else rest
  }

  /** HandleAsync over the stored users: every selected user's TeamId is
      set to the command's id, one user at a time, then the change is
      saved (saving is a plain commit here). */
  method HandleTeamAssign(users: seq<ApplicationUser>, teamId: int, payload: seq<string>)
    returns (r: Response<bool>)
    modifies users
    ensures r == Assigned
    ensures forall u :: u in users ==>
      && u.teamId == TeamAfterAssign(u.id, old(u.teamId), payload, teamId)
      && u.userName == old(u.userName) && u.email == old(u.email)
      && u.phoneNumber == old(u.phoneNumber) && u.fullName == old(u.fullName)
      && u.password == old(u.password)
  {
    var selected := SelectUsers(users, payload);
    var k := 0;
    while k < |selected|
      invariant 0 <= k <= |selected|
      invariant forall u :: u in users ==>
        && u.teamId == (if u in selected[..k] then teamId else old(u.teamId))
        && u.userName == old(u.userName) && u.email == old(u.email)
        && u.phoneNumber == old(u.phoneNumber) && u.fullName == old(u.fullName)
        && u.password == old(u.password)
    {
      assert selected[..k + 1] == selected[..k] + [selected[k]];
      selected[k].teamId := teamId;
      k := k + 1;
    }
    assert selected[..k] == selected;
    r := Assigned;
  }

  /** The whole command. */
  method ExecuteTeamAssign(users: seq<ApplicationUser>, teamId: int,
                           payload: Option<seq<string>>, teamExists: bool)
    returns (o: Outcome<bool>)
    modifies users
    ensures var step := TeamAssignValidation(payload, teamExists);
      && (step.Reject? ==> o == Returned(step.response) && forall u :: u in users ==> u.teamId == old(u.teamId))
      && (step.Pass? ==>
            && o == Returned(Assigned)
            && forall u :: u in users ==> u.teamId == TeamAfterAssign(u.id, old(u.teamId), payload.value, teamId))
  {
    var step := TeamAssignValidation(payload, teamExists);
    if step.Reject? {
      return Returned(step.response);
    }
    var r := HandleTeamAssign(users, teamId, payload.value);
    o := Returned(r);
  }
}
