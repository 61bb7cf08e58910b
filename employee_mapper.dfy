/** EmployeeMapper: conversion between the Employee row and the EmployeeDTO
    transfer record. */
module EmployeeMapping {
  import opened Common
  import opened Roles
  import opened Employees

  /** MapToDTO for a non-null employee: the Role travels as its name and the
      password is not carried. */
  function MapToDTO(e: Employee): (d: EmployeeDTO)
    ensures d.role == Some(RoleName(e.role))
  {
    EmployeeDTO(e.id, e.firstName, e.lastName, Some(RoleName(e.role)), e.email, e.mobileNumber)
  }

  function MapToDTOOrNull(e: Option<Employee>): (d: Option<EmployeeDTO>)
    ensures d.Some? <==> e.Some?
    ensures d.Some? ==> d.value == MapToDTO(e.value)
  {
    match e
    case None => None
    case Some(x) => Some(MapToDTO(x))
  }

  /** The exception Enum.Parse throws for a name that is no RoleType member. */
  const RoleParseError: Exception := Exception(ArgumentException, FrameworkMessage)

  /** MapToEntity for a non-null DTO: the Role name is parsed, which throws an
      ArgumentException for anything but a member name; Password and Tasks are
      left null. */
  function MapToEntity(d: EmployeeDTO): (r: Throws<Employee>)
    ensures r.Throw? <==> ParseRole(d.role).None?
    ensures r.Throw? ==> r.error == RoleParseError
    ensures r.Return? ==> r.value.password.None? && r.value.tasks.None? && r.value.id == d.id
  {
    match ParseRole(d.role)
    case None => Throw(RoleParseError)
    case Some(role) => Return(Employees.Employee(d.id, d.firstName, d.lastName, role, d.email, None, d.mobileNumber, None))
  }

  function MapToEntityOrNull(d: Option<EmployeeDTO>): (r: Throws<Option<Employee>>)
    ensures d.None? ==> r == Return(None)
    ensures d.Some? ==> (r.Throw? <==> MapToEntity(d.value).Throw?)
    ensures d.Some? && r.Return? ==> r.value == Some(MapToEntity(d.value).value)
  {
    match d
    case None => Return(None)
    case Some(x) =>
      match MapToEntity(x)
      case Throw(ex) => Throw(ex)
      case Return(e) => Return(Some(e))
  }

  /** An employee survives the trip through the DTO on Id, names, Role, Email
      and MobileNumber; the password and the task list come back null. */
  lemma EntityRoundTrip(e: Employee)
    ensures MapToEntity(MapToDTO(e)) == Return(e.(password := None, tasks := None))
  {
    ParseRoleName(e.role);
  }

  /** A DTO whose Role names a member survives the trip through the entity
      unchanged; one whose Role does not cannot be mapped at all. */
  lemma DtoRoundTrip(d: EmployeeDTO)
    ensures MapToEntity(d).Return? ==> MapToDTO(MapToEntity(d).value) == d
    ensures MapToEntity(d).Return? <==> exists r :: d.role == Some(RoleName(r))
  {
    match ParseRole(d.role)
    case None =>
      forall r ensures d.role != Some(RoleName(r)) {
        ParseRoleOnlyNames(d.role, r);
      }
    case Some(r) =>
      ParseRoleOnlyNames(d.role, r);
  }

  /** The password never reaches the DTO: employees that differ only in
      their password map to the same DTO. */
  lemma DtoHidesPassword(e: Employee, p: Option<string>)
    ensures MapToDTO(e.(password := p)) == MapToDTO(e)
  {
  }
}
