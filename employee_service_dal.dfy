/** The exception-throwing employee service of the data layer: reads as
    DTOs, and create and update guarded by email uniqueness. */
module EmployeeServicesDal {
  import opened Common
  import opened Roles
  import opened Employees
  import opened EmployeeMapping
  import opened Store
  import opened EmployeeRepositories

  const DuplicateEmail: string := "An employee with the same email already exists."
  const DuplicateEmailError: Exception := Exception(GeneralException, DuplicateEmail)

  /** No two stored employees share an Email (null counts as a value). */
  predicate UniqueEmails(employees: map<int, Employee>) {
    forall a, b :: a in employees && b in employees && employees[a].email == employees[b].email ==> a == b
  }

  /** `Select(e => MapToDTO(e)).ToList()`. */
  function MapEmployees(rows: seq<Employee>): (ds: seq<EmployeeDTO>)
    ensures |ds| == |rows| && forall i :: 0 <= i < |rows| ==> ds[i] == MapToDTO(rows[i])
  {
    seq(|rows|, i requires 0 <= i < |rows| => MapToDTO(rows[i]))
  }

  /** The employee table after CreateEmployeeAsync(dto), or what it throws:
      a stored email is refused first, then the Role name is parsed, then the
      row is inserted under the key the store gives it. */
  function CreateOutcome(employees: map<int, Employee>, next: int, dto: EmployeeDTO): (r: Throws<map<int, Employee>>)
    requires forall k :: k in employees ==> k < next
    ensures IsEmailExists(employees, dto.email) ==> r == Throw(DuplicateEmailError)
    ensures !IsEmailExists(employees, dto.email) && MapToEntity(dto).Throw? ==> r == Throw(RoleParseError)
    ensures r.Return? ==> |r.value| == |employees| + 1 && employees.Keys < r.value.Keys
    ensures r.Return? ==> forall k :: k in employees ==> r.value[k] == employees[k]
    ensures r.Return? ==>
      && MapToEntity(dto).Return?
      && exists k :: k !in employees && r.value == employees[k := StripEmployee(MapToEntity(dto).value).(id := k)]
    ensures r.Return? && dto.id != 0 ==> dto.id !in employees && dto.id in r.value
    ensures (&& !IsEmailExists(employees, dto.email)
             && MapToEntity(dto).Return?
             && InsertKey(employees.Keys, next, MapToEntity(dto).value.id).Throw?) ==>
      r == Throw(Exception(GeneralException, ErrorCreatingEmployee))
  {
    if IsEmailExists(employees, dto.email) then Throw(DuplicateEmailError)
    else
      match MapToEntity(dto)
      case Throw(ex) => Throw(ex)
      case Return(e) =>
        match InsertKey(employees.Keys, next, e.id)
        case Throw(_) => Throw(Exception(GeneralException, ErrorCreatingEmployee))
        case Return(k) => Return(employees[k := StripEmployee(e).(id := k)])
  }

  /** The employee table after UpdateEmployeeAsync(id, dto), or what it
      throws: the row `id` must exist; when the email changes it must not be
      stored already; the Role must parse; and the mapped DTO then replaces
      the row keyed by dto.Id, which must exist too. */
  function UpdateOutcome(employees: map<int, Employee>, id: int, dto: EmployeeDTO): (r: Throws<map<int, Employee>>)
    ensures id !in employees ==> r == Throw(Exception(GeneralException, EmployeeNotFound(id)))
    ensures id in employees && employees[id].email != dto.email && IsEmailExists(employees, dto.email) ==>
      r == Throw(DuplicateEmailError)
    ensures r.Return? ==> id in employees && dto.id in employees && MapToEntity(dto).Return?
    ensures r.Return? ==> r.value == employees[dto.id := StripEmployee(MapToEntity(dto).value)]
  {
    if id !in employees then Throw(Exception(GeneralException, EmployeeNotFound(id)))
    else if employees[id].email != dto.email && IsEmailExists(employees, dto.email) then Throw(DuplicateEmailError)
    else
      match MapToEntity(dto)
      case Throw(ex) => Throw(ex)
      case Return(e) => EmployeesAfterUpdate(employees, e)
  }

  /** A successful create keeps the emails unique. */
  lemma CreateKeepsEmailsUnique(employees: map<int, Employee>, next: int, dto: EmployeeDTO)
    requires forall k :: k in employees ==> k < next
    requires UniqueEmails(employees)
    ensures CreateOutcome(employees, next, dto).Return? ==> UniqueEmails(CreateOutcome(employees, next, dto).value)
  {
    var out := CreateOutcome(employees, next, dto);
    if out.Return? {
      var e := MapToEntity(dto).value;
      var k := InsertKey(employees.Keys, next, e.id).value;
      assert out.value == employees[k := StripEmployee(e).(id := k)];
      forall a, b | a in out.value && b in out.value && out.value[a].email == out.value[b].email
        ensures a == b
      {
        if a != k && b != k {
          assert employees[a].email == employees[b].email;
        }
      }
    }
  }

  /** An update addressed to the row it checks (dto.Id == id) keeps the
      emails unique, both when the email is kept and when it changes. */
  lemma UpdateKeepsEmailsUnique(employees: map<int, Employee>, id: int, dto: EmployeeDTO)
    requires UniqueEmails(employees)
    requires dto.id == id
    ensures UpdateOutcome(employees, id, dto).Return? ==> UniqueEmails(UpdateOutcome(employees, id, dto).value)
  {
    var out := UpdateOutcome(employees, id, dto);
    if out.Return? {
      var m := out.value;
      forall a, b | a in m && b in m && m[a].email == m[b].email
        ensures a == b
      {
        if a != id && b != id {
          assert employees[a].email == employees[b].email;
        }
      }
    }
  }

  /** The check reads row `id` but the write goes to row dto.Id, so an
      update whose DTO names another employee can copy row `id`'s email onto
      that employee: here employee 2 receives employee 1's email. */
  lemma UpdateOfOtherRowDuplicatesEmail()
    ensures var e1 := Employees.Employee(1, Some("Ann"), Some("Lee"), Admin, Some("ann@x"), Some("password"), Some("1"), None);
      var e2 := Employees.Employee(2, Some("Bob"), Some("Ray"), Admin, Some("bob@x"), Some("password"), Some("2"), None);
      var employees := map[1 := e1, 2 := e2];
      var dto := EmployeeDTO(2, Some("Bob"), Some("Ray"), Some("Admin"), Some("ann@x"), Some("2"));
      && UniqueEmails(employees)
      && UpdateOutcome(employees, 1, dto).Return?
      && !UniqueEmails(UpdateOutcome(employees, 1, dto).value)
  {
    var e1 := Employees.Employee(1, Some("Ann"), Some("Lee"), Admin, Some("ann@x"), Some("password"), Some("1"), None);
    var e2 := Employees.Employee(2, Some("Bob"), Some("Ray"), Admin, Some("bob@x"), Some("password"), Some("2"), None);
    var employees := map[1 := e1, 2 := e2];
    var dto := EmployeeDTO(2, Some("Bob"), Some("Ray"), Some("Admin"), Some("ann@x"), Some("2"));
    assert "ann@x" != "bob@x" by { assert "ann@x"[0] != "bob@x"[0]; }
    assert ParseRole(Some("Admin")) == Some(Admin);
    var m := UpdateOutcome(employees, 1, dto).value;
    assert m[1].email == m[2].email;
  }

  /** A successful update stores a null password, so the updated row no
      longer passes the Employee validation attributes. */
  lemma UpdateErasesPassword(employees: map<int, Employee>, id: int, dto: EmployeeDTO)
    ensures UpdateOutcome(employees, id, dto).Return? ==>
      var m := UpdateOutcome(employees, id, dto).value;
      m[dto.id].password.None? && !ValidEmployee(m[dto.id])
  {
  }

  lemma NotFoundIsNotDuplicate(id: int)
    ensures Exception(GeneralException, EmployeeNotFound(id)) != DuplicateEmailError
  {
    var n := EmployeeNotFound(id);
    if |n| == |DuplicateEmail| {
      assert n[|n| - 2] == 'd' && DuplicateEmail[|n| - 2] == 's';
    }
  }

  /** Resending the stored email never fails as a duplicate, and a changed
      email fails as a duplicate exactly when some row already has it. */
  lemma UnchangedEmailSkipsCheck(employees: map<int, Employee>, id: int, dto: EmployeeDTO)
    requires id in employees
    ensures employees[id].email == dto.email ==> UpdateOutcome(employees, id, dto) != Throw(DuplicateEmailError)
    ensures employees[id].email != dto.email ==>
      (UpdateOutcome(employees, id, dto) == Throw(DuplicateEmailError) <==> IsEmailExists(employees, dto.email))
  {
    NotFoundIsNotDuplicate(dto.id);
  }

  class EmployeeService {
    const repository: EmployeeRepository

    constructor(repository: EmployeeRepository)
      ensures this.repository == repository
    {
      this.repository := repository;
    }

    /** Every employee as a DTO, in key order. */
    method GetAllEmployeesAsync() returns (dtos: seq<EmployeeDTO>)
      requires repository.db.Valid()
      ensures dtos == MapEmployees(AllEmployeeRows(repository.db.employees))
    {
      var employees := repository.GetAllEmployeesAsync();
      dtos := MapEmployees(employees);
    }

    /** The employee as a DTO, or null. */
    method GetEmployeeByIdAsync(id: int) returns (d: Option<EmployeeDTO>)
      ensures d == MapToDTOOrNull(Lookup(repository.db.employees, id))
    {
      var employee := repository.GetEmployeeByIdAsync(id);
      d := MapToDTOOrNull(employee);
    }

    method CreateEmployeeAsync(dto: EmployeeDTO) returns (r: Throws<()>)
      requires repository.db.Valid()
      modifies repository.db
      ensures repository.db.Valid()
      ensures repository.db.tasks == old(repository.db.tasks)
      ensures var out := CreateOutcome(old(repository.db.employees), old(repository.db.nextEmployeeId), dto);
        && (r.Throw? <==> out.Throw?)
        && (r.Throw? ==> r.error == out.error && repository.db.employees == old(repository.db.employees))
        && (r.Return? ==> repository.db.employees == out.value)
    {
      var duplicate := IsEmailExists(repository.db.employees, dto.email);
      if duplicate {
        return Throw(DuplicateEmailError);
      }
      var mapped := MapToEntity(dto);
      if mapped.Throw? {
        return Throw(mapped.error);
      }
      r := repository.CreateEmployeeAsync(mapped.value);
    }

    method UpdateEmployeeAsync(id: int, dto: EmployeeDTO) returns (r: Throws<()>)
      requires repository.db.Valid()
      modifies repository.db
      ensures repository.db.nextTaskId == old(repository.db.nextTaskId) && repository.db.nextEmployeeId == old(repository.db.nextEmployeeId)
      ensures repository.db.Valid()
      ensures repository.db.tasks == old(repository.db.tasks)
      ensures var out := UpdateOutcome(old(repository.db.employees), id, dto);
        && (r.Throw? <==> out.Throw?)
        && (r.Throw? ==> r.error == out.error && repository.db.employees == old(repository.db.employees))
        && (r.Return? ==> repository.db.employees == out.value)
    {
      var existing := repository.GetEmployeeByIdAsync(id);
      if existing.None? {
        return Throw(Exception(GeneralException, EmployeeNotFound(id)));
      }
      if existing.value.email != dto.email && IsEmailExists(repository.db.employees, dto.email) {
        return Throw(DuplicateEmailError);
      }
      var mapped := MapToEntity(dto);
      if mapped.Throw? {
        return Throw(mapped.error);
      }
      r := repository.UpdateEmployeeAsync(mapped.value);
    }

    /** The repository's result, unchanged. */
    method DeleteEmployeeAsync(id: int) returns (ok: bool)
      requires repository.db.Valid()
      modifies repository.db
      ensures repository.db.nextTaskId == old(repository.db.nextTaskId) && repository.db.nextEmployeeId == old(repository.db.nextEmployeeId)
      ensures repository.db.Valid()
      ensures ok <==> id in old(repository.db.employees)
      ensures repository.db.employees == old(repository.db.employees) - {id}
      ensures repository.db.tasks == old(repository.db.tasks)
    {
      ok := repository.DeleteEmployeeAsync(id);
    }
  }
}
