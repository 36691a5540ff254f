/** The three user roles and the strings they are stored and signed as. */
module Roles {
  import opened Wrappers

  datatype Role = Admin | Writer | Guest

  /** The enumeration's value. */
  function RoleValue(r: Role): (s: string)
    ensures s != "*"
  {
    match r
    case Admin => "admin"
    case Writer => "writer"
    case Guest => "guest"
  }

  /** `UserRole(s)`: the role whose value is `s`, if any. */
  function ParseRole(s: string): (r: Option<Role>)
    ensures r.Some? ==> RoleValue(r.value) == s
    ensures r.None? ==> forall x: Role :: RoleValue(x) != s
  {
    if s == "admin" then Some(Admin)
    else if s == "writer" then Some(Writer)
    else if s == "guest" then Some(Guest)
    else None
  }

  /** Printing a role and reading it back gives the role. */
  lemma ParseRoleValue(r: Role)
    ensures ParseRole(RoleValue(r)) == Some(r)
  {
  }
}
