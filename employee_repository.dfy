/** EmployeeRepository: the employee table operations, over the store, and
    the two queries the services call on it (email lookup and first name by
    id). */
module EmployeeRepositories {
  import opened Common
  import opened Text
  import opened Employees
  import opened Store

  const ErrorCreatingEmployee: string := "Error creating employee."

  /** "Employee with ID {id} not found." with the id interpolated. */
  function EmployeeNotFound(id: int): string {
    "Employee with ID " + IntToString(id) + " not found."
  }

  /** IsEmailExistsAsync: some stored employee has exactly this Email
      (ordinal comparison; null matches null). */
  predicate IsEmailExists(employees: map<int, Employee>, email: Option<string>) {
    exists k :: k in employees && employees[k].email == email
  }

  /** GetEmployeeNameById: the FirstName of the employee with that id, or
      null when there is none. */
  function EmployeeNameById(employees: map<int, Employee>, id: int): (name: Option<string>)
    ensures name.Some? ==> id in employees && name == employees[id].firstName
    ensures id in employees ==> name == employees[id].firstName
  {
    if id in employees then employees[id].firstName else None
  }

  /** The table after UpdateEmployeeAsync(e): every scalar of the stored row,
      Password included, is overwritten by e's; other rows are untouched. An
      absent id throws and changes nothing. */
  function EmployeesAfterUpdate(employees: map<int, Employee>, e: Employee): (r: Throws<map<int, Employee>>)
    ensures r.Throw? <==> e.id !in employees
    ensures r.Throw? ==> r.error == Exception(GeneralException, EmployeeNotFound(e.id))
    ensures r.Return? ==> r.value.Keys == employees.Keys && r.value[e.id] == StripEmployee(e)
    ensures r.Return? ==> forall k :: k in employees && k != e.id ==> r.value[k] == employees[k]
  {
    if e.id !in employees then Throw(Exception(GeneralException, EmployeeNotFound(e.id)))
    else Return(employees[e.id := StripEmployee(e)])
  }

  /** An update keeps every row under its own key. */
  lemma UpdateKeepsKeyed(employees: map<int, Employee>, e: Employee)
    requires EmployeesKeyed(employees)
    ensures EmployeesAfterUpdate(employees, e).Return? ==> EmployeesKeyed(EmployeesAfterUpdate(employees, e).value)
  {
  }

  class EmployeeRepository {
    const db: Database

    constructor(db: Database)
      ensures this.db == db
    {
      this.db := db;
    }

    /** Every employee row, in key order. */
    method GetAllEmployeesAsync() returns (rows: seq<Employee>)
      requires db.Valid()
      ensures rows == AllEmployeeRows(db.employees)
    {
      var employees := db.employees;
      var keys := AscendingKeys(employees.Keys);
      AscendingFacts(employees.Keys);
      rows := seq(|keys|, i requires 0 <= i < |keys| => employees[keys[i]]);
    }

    /** FindAsync: the row with that key, or null. */
    method GetEmployeeByIdAsync(id: int) returns (e: Option<Employee>)
      ensures e == Lookup(db.employees, id)
    {
      e := Lookup(db.employees, id);
    }

    /** Adds the row; a failed insert is rethrown as "Error creating
        employee." and stores nothing. */
    method CreateEmployeeAsync(e: Employee) returns (r: Throws<()>)
      requires db.Valid()
      modifies db
      ensures db.Valid()
      ensures db.tasks == old(db.tasks)
      ensures match InsertKey(old(db.employees).Keys, old(db.nextEmployeeId), e.id)
        case Throw(_) =>
          r == Throw(Exception(GeneralException, ErrorCreatingEmployee)) && db.employees == old(db.employees)
        case Return(k) =>
          r == Return(()) && db.employees == old(db.employees)[k := StripEmployee(e).(id := k)]
    {
      var key := db.AddEmployee(e);
      if key.Throw? {
        r := Throw(Exception(GeneralException, ErrorCreatingEmployee));
      } else {
        r := Return(());
      }
    }

    /** Overwrites the stored row with e's values (SetValues). */
    method UpdateEmployeeAsync(e: Employee) returns (r: Throws<()>)
      requires db.Valid()
      modifies db
      ensures db.nextTaskId == old(db.nextTaskId) && db.nextEmployeeId == old(db.nextEmployeeId)
      ensures db.Valid()
      ensures db.tasks == old(db.tasks)
      ensures match EmployeesAfterUpdate(old(db.employees), e)
        case Throw(ex) => r == Throw(ex) && db.employees == old(db.employees)
        case Return(m) => r == Return(()) && db.employees == m
    {
      var existing := GetEmployeeByIdAsync(e.id);
      if existing.None? {
        return Throw(Exception(GeneralException, EmployeeNotFound(e.id)));
      }
      UpdateKeepsKeyed(db.employees, e);
      db.employees := db.employees[e.id := StripEmployee(e)];
      r := Return(());
    }

    /** Removes the row; false, and no change, when the id is absent. */
    method DeleteEmployeeAsync(id: int) returns (ok: bool)
      requires db.Valid()
      modifies db
      ensures db.nextTaskId == old(db.nextTaskId) && db.nextEmployeeId == old(db.nextEmployeeId)
      ensures db.Valid()
      ensures ok <==> id in old(db.employees)
      ensures db.employees == old(db.employees) - {id}
      ensures db.tasks == old(db.tasks)
    {
      var e := GetEmployeeByIdAsync(id);
      if e.None? {
        return false;
      }
      db.employees := db.employees - {id};
      ok := true;
    }
  }
}
