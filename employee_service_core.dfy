/** The employee service of the core layer: the same checks as the
    data-layer service, with the not-found and duplicate-email outcomes
    reported as envelopes. Exceptions from the mapper and the repository are
    not caught and still propagate. */
module EmployeeServicesCore {
  import opened Common
  import opened Employees
  import opened EmployeeMapping
  import opened Store
  import opened EmployeeRepositories
  import opened Responses
  import opened EmployeeServicesDal

  /** The not-found message is a plain string literal, not an interpolated
      one, so the braces reach the caller as written. */
  const EmployeeNotFoundLiteral: string := "Employee with ID {id} not found."

  /** `new ResponseMessage<bool> { Success = true, Data = true }`: no
      message. */
  const Succeeded: ResponseMessage<bool> := ResponseMessage(true, None, Some(true))

  /** `new ResponseMessage<bool> { Success = false, Message = m }`. */
  function Refused(m: string): (r: ResponseMessage<bool>)
    ensures !r.success && r.message == Some(m) && r.data.None?
  {
    ResponseMessage(false, Some(m), None)
  }

  /** What CreateEmployeeAsync(dto) returns or throws. */
  function CreateResponse(employees: map<int, Employee>, next: int, dto: EmployeeDTO): (r: Throws<ResponseMessage<bool>>)
    requires forall k :: k in employees ==> k < next
    ensures r == Return(Succeeded) <==> CreateOutcome(employees, next, dto).Return?
    ensures IsEmailExists(employees, dto.email) ==> r == Return(Refused(DuplicateEmail))
    ensures !IsEmailExists(employees, dto.email) ==>
      (r.Throw? <==> CreateOutcome(employees, next, dto).Throw?) &&
      (r.Throw? ==> r.error == CreateOutcome(employees, next, dto).error)
  {
    if IsEmailExists(employees, dto.email) then Return(Refused(DuplicateEmail))
    else
      match CreateOutcome(employees, next, dto)
      case Throw(e) => Throw(e)
      case Return(_) => Return(Succeeded)
  }

  /** What UpdateEmployeeAsync(id, dto) returns or throws. The two envelope
      failures are the data-layer service's first two exceptions; every
      other exception is the data-layer service's own. */
  function UpdateResponse(employees: map<int, Employee>, id: int, dto: EmployeeDTO): (r: Throws<ResponseMessage<bool>>)
    ensures r == Return(Succeeded) <==> UpdateOutcome(employees, id, dto).Return?
    ensures id !in employees ==> r == Return(Refused(EmployeeNotFoundLiteral))
    ensures id in employees && employees[id].email != dto.email && IsEmailExists(employees, dto.email) ==>
      r == Return(Refused(DuplicateEmail))
    ensures r.Throw? ==> UpdateOutcome(employees, id, dto) == Throw(r.error)
  {
    if id !in employees then Return(Refused(EmployeeNotFoundLiteral))
    else if employees[id].email != dto.email && IsEmailExists(employees, dto.email) then
      Return(Refused(DuplicateEmail))
    else
      match UpdateOutcome(employees, id, dto)
      case Throw(e) => Throw(e)
      case Return(_) => Return(Succeeded)
  }

  /** Every absent id gets the same message, so the caller cannot tell which
      id was missing. */
  lemma NotFoundMessageIgnoresId(employees: map<int, Employee>, id1: int, id2: int, dto: EmployeeDTO)
    requires id1 !in employees && id2 !in employees
    ensures UpdateResponse(employees, id1, dto) == UpdateResponse(employees, id2, dto)
    ensures UpdateResponse(employees, id1, dto).value.message.value[17] == '{'
  {
  }

  class EmployeeService {
    const repository: EmployeeRepository

    constructor(repository: EmployeeRepository)
      ensures this.repository == repository
    {
      this.repository := repository;
    }

    /** Every employee as a DTO, in key order. */
    method GetAllEmployeesAsync() returns (dtos: seq<EmployeeDTO>)
      requires repository.db.Valid()
      ensures dtos == MapEmployees(AllEmployeeRows(repository.db.employees))
    {
      var employees := repository.GetAllEmployeesAsync();
      dtos := MapEmployees(employees);
    }

    /** The employee as a DTO, or null for a missing id. */
    method GetEmployeeByIdAsync(id: int) returns (d: Option<EmployeeDTO>)
      ensures d.None? <==> id !in repository.db.employees
      ensures d.Some? ==> d.value == MapToDTO(repository.db.employees[id])
    {
      var employee := repository.GetEmployeeByIdAsync(id);
      d := MapToDTOOrNull(employee);
    }

    method CreateEmployeeAsync(dto: EmployeeDTO) returns (r: Throws<ResponseMessage<bool>>)
      requires repository.db.Valid()
      modifies repository.db
      ensures repository.db.Valid()
      ensures repository.db.tasks == old(repository.db.tasks)
      ensures r == CreateResponse(old(repository.db.employees), old(repository.db.nextEmployeeId), dto)
      ensures r == Return(Succeeded) ==>
        repository.db.employees == CreateOutcome(old(repository.db.employees), old(repository.db.nextEmployeeId), dto).value
      ensures r != Return(Succeeded) ==> repository.db.employees == old(repository.db.employees)
    {
      var duplicate := IsEmailExists(repository.db.employees, dto.email);
      if duplicate {
        return Return(Refused(DuplicateEmail));
      }
      var mapped := MapToEntity(dto);
      if mapped.Throw? {
        return Throw(mapped.error);
      }
      var created := repository.CreateEmployeeAsync(mapped.value);
      if created.Throw? {
        return Throw(created.error);
      }
      r := Return(Succeeded);
    }

    method UpdateEmployeeAsync(id: int, dto: EmployeeDTO) returns (r: Throws<ResponseMessage<bool>>)
      requires repository.db.Valid()
      modifies repository.db
      ensures repository.db.nextTaskId == old(repository.db.nextTaskId) && repository.db.nextEmployeeId == old(repository.db.nextEmployeeId)
      ensures repository.db.Valid()
      ensures repository.db.tasks == old(repository.db.tasks)
      ensures r == UpdateResponse(old(repository.db.employees), id, dto)
      ensures r == Return(Succeeded) ==>
        repository.db.employees == UpdateOutcome(old(repository.db.employees), id, dto).value
      ensures r != Return(Succeeded) ==> repository.db.employees == old(repository.db.employees)
    {
      var existing := repository.GetEmployeeByIdAsync(id);
      if existing.None? {
        return Return(Refused(EmployeeNotFoundLiteral));
      }
      if existing.value.email != dto.email && IsEmailExists(repository.db.employees, dto.email) {
        return Return(Refused(DuplicateEmail));
      }
      var mapped := MapToEntity(dto);
      if mapped.Throw? {
        return Throw(mapped.error);
      }
      var updated := repository.UpdateEmployeeAsync(mapped.value);
      if updated.Throw? {
        return Throw(updated.error);
      }
      r := Return(Succeeded);
    }

    /** The repository's result, unchanged. */
    method DeleteEmployeeAsync(id: int) returns (ok: bool)
      requires repository.db.Valid()
      modifies repository.db
      ensures repository.db.nextTaskId == old(repository.db.nextTaskId) && repository.db.nextEmployeeId == old(repository.db.nextEmployeeId)
      ensures repository.db.Valid()
      ensures ok <==> id in old(repository.db.employees)
      ensures repository.db.employees == old(repository.db.employees) - {id}
      ensures repository.db.tasks == old(repository.db.tasks)
    {
      ok := repository.DeleteEmployeeAsync(id);
    }
  }
}
