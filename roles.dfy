/** RoleType, the enumeration Employee.Role is parsed into, with the
    enum-to-name rendering (ToString) and the name-to-enum parse
    (Enum.Parse<RoleType>). */
module Roles {
  import opened Common

  datatype RoleType = Admin | Manager | Employee

  /** The member name, as RoleType.ToString() renders it. */
  function RoleName(r: RoleType): (name: string)
    ensures name != []
  {
    match r
    case Admin => "Admin"
    case Manager => "Manager"
    case Employee => "Employee"
  }

  /** Enum.Parse<RoleType>(name) for the names of the members: None is the
      ArgumentException thrown for any other string (and for null). */
  function ParseRole(name: Option<string>): (r: Option<RoleType>)
  {
    match name
    case None => None
    case Some(s) =>
      if s == "Admin" then Some(Admin)
      else if s == "Manager" then Some(Manager)
      else if s == "Employee" then Some(Employee)
      else None
  }

  /** Parsing a rendered name gives the role back. */
  lemma ParseRoleName(r: RoleType)
    ensures ParseRole(Some(RoleName(r))) == Some(r)
  {
  }

  /** A name parses exactly when it is the rendering of the role it yields. */
  lemma ParseRoleOnlyNames(name: Option<string>, r: RoleType)
    ensures ParseRole(name) == Some(r) <==> name == Some(RoleName(r))
  {
  }

  /** Different roles have different names. */
  lemma RoleNameInjective(a: RoleType, b: RoleType)
    ensures RoleName(a) == RoleName(b) ==> a == b
  {
  }
}
