/** The `RoleChecker` dependency: a route names the roles it admits, and the
    payload the authentication middleware stored must carry one of them. */
module RoleChecker {
  import opened Wrappers
  import opened Crypto
  import opened Roles

  /** The roles list admits everybody when it names "*". */
  const Wildcard: string := "*"

  /** `get_user_payload` then `RoleChecker.__call__`. `stored` is the
      payload the middleware attached, if it ran its authenticated branch. */
  function Check(allowed: seq<string>, stored: Option<Payload>): (r: Result<Payload, Error>)
    ensures stored.None? ==> r == Err(AttributeError("user_payload"))
    ensures stored.Some? ==> (r.Ok? <==> Wildcard in allowed || (stored.value.role.Some? && stored.value.role.value in allowed))
    ensures r.Ok? ==> r.value == stored.value
    ensures stored.Some? && Wildcard !in allowed && stored.value.role.None? ==> r == Err(KeyError("role"))
    ensures stored.Some? && Wildcard !in allowed && stored.value.role.Some? && stored.value.role.value !in allowed ==>
      r == Err(HttpError(403, "User with role '" + stored.value.role.value + "' is not authorized to access this resource"))
  {
    match stored
    case None => Err(AttributeError("user_payload"))
    case Some(user) =>
      if Wildcard in allowed then Ok(user)
      else match user.role
        case None => Err(KeyError("role"))
        case Some(role) =>
          if role !in allowed then
            Err(HttpError(403, "User with role '" + role + "' is not authorized to access this resource"))
          else Ok(user)
  }

  /** The allowed list a route builds from enum members. */
  function RoleValues(roles: seq<Role>): (r: seq<string>)
    ensures |r| == |roles|
    ensures forall k :: 0 <= k < |roles| ==> r[k] == RoleValue(roles[k])
  {
    seq(|roles|, k requires 0 <= k < |roles| => RoleValue(roles[k]))
  }

  /** A token issued for a user of role `role` passes a route built from a
      list of roles exactly when that role is listed: no role's value is the
      wildcard, and distinct roles have distinct values. */
  lemma {:induction false} IssuedRoleChecked(roles: seq<Role>, role: Role, sub: string, exp: int)
    ensures Check(RoleValues(roles), Some(Payload(Some(sub), Some(RoleValue(role)), Some(exp)))).Ok? <==> role in roles
  {
    var values := RoleValues(roles);
    assert Wildcard !in values;
    if RoleValue(role) in values {
      var k :| 0 <= k < |values| && values[k] == RoleValue(role);
      ParseRoleValue(role);
      ParseRoleValue(roles[k]);
      assert roles[k] == role;
    }
    if role in roles {
      var k :| 0 <= k < |roles| && roles[k] == role;
      assert values[k] == RoleValue(role);
    }
  }

  /** An empty list admits nobody. */
  lemma EmptyListRefusesAll(stored: Option<Payload>)
    ensures Check([], stored).Err?
  {
  }

  /** The wildcard admits every stored payload, with or without a role. */
  lemma WildcardAdmitsAll(allowed: seq<string>, user: Payload)
    requires Wildcard in allowed
    ensures Check(allowed, Some(user)) == Ok(user)
  {
  }
}
