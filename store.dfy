/** The relational store behind AppDbContext: the Tasks and Employees tables
    as maps from primary key to row, with identity columns for the keys the
    database generates, and the ORM operations the repositories and the
    controller use (Include-style loading, Add with SaveChanges, ordered
    reads). */
module Store {
  import opened Common
  import opened Employees
  import opened TaskEntities

  // ---------------------------------------------------------------------
  // Ascending key order, the order in which reads return rows

  lemma EmptyOrHasElement(s: set<int>)
    ensures s == {} || exists x :: x in s
  {
    if forall x :: x !in s {
      assert s == {};
    }
  }

  /** A least element of a non-empty set. */
  lemma {:induction false} LeastElement(s: set<int>) returns (m: int)
    requires s != {}
    ensures m in s && forall x :: x in s ==> m <= x
    decreases |s|
  {
    EmptyOrHasElement(s);
    var y :| y in s;
    var rest := s - {y};
    if rest == {} {
      m := y;
      LowerBoundOfSplit(s, y, rest, m);
    } else {
      var m' := LeastElement(rest);
      m := if y < m' then y else m';
      LowerBoundOfSplit(s, y, rest, m);
    }
  }

  lemma LowerBoundOfSplit(s: set<int>, y: int, rest: set<int>, m: int)
    requires rest == s - {y} && m <= y
    requires forall x :: x in rest ==> m <= x
    ensures forall x :: x in s ==> m <= x
  {
    forall x | x in s
      ensures m <= x
    {
      if x != y {
        assert x in rest;
      }
    }
  }

  lemma MinExists(s: set<int>)
    requires s != {}
    ensures exists m :: m in s && forall x :: x in s ==> m <= x
  {
    var m := LeastElement(s);
  }

  ghost function MinOf(s: set<int>): (m: int)
    requires s != {}
    ensures m in s && forall x :: x in s ==> m <= x
  {
    MinExists(s);
    var m :| m in s && forall x :: x in s ==> m <= x;
    m
  }

  /** The elements of s in ascending order, smallest first. */
  ghost function Ascending(s: set<int>): (r: seq<int>)
    decreases s
  {
    if s == {} then [] else [MinOf(s)] + Ascending(s - {MinOf(s)})
  }

  /** Ascending lists every element of the set exactly once, in strictly
      increasing order. */
  lemma {:induction false} AscendingFacts(s: set<int>)
    ensures |Ascending(s)| == |s|
    ensures forall x :: x in Ascending(s) <==> x in s
    ensures forall i, j :: 0 <= i < j < |Ascending(s)| ==> Ascending(s)[i] < Ascending(s)[j]
    decreases s
  {
    if s != {} {
      var m := MinOf(s);
      var rest := s - {m};
      AscendingFacts(rest);
      var r := Ascending(s);
      assert r == [m] + Ascending(rest);
      forall i, j | 0 <= i < j < |r|
        ensures r[i] < r[j]
      {
        if i == 0 {
          assert r[j] == Ascending(rest)[j - 1];
          assert r[j] in rest;
        } else {
          assert r[i] == Ascending(rest)[i - 1] && r[j] == Ascending(rest)[j - 1];
        }
      }
    }
  }

  /** Lists the keys of s in ascending order, smallest first. */
  method AscendingKeys(s: set<int>) returns (keys: seq<int>)
    ensures keys == Ascending(s)
  {
    keys := [];
    var rest := s;
    while rest != {}
      invariant keys + Ascending(rest) == Ascending(s)
      decreases |rest|
    {
      MinExists(rest);
      var m :| m in rest && forall x :: x in rest ==> m <= x;
      assert m == MinOf(rest);
      assert Ascending(rest) == [m] + Ascending(rest - {m});
      keys := keys + [m];
      rest := rest - {m};
    }
  }

  // ---------------------------------------------------------------------
  // Rows and their navigations

  /** Find by primary key in the Employees table. */
  function Lookup(employees: map<int, Employee>, id: int): (e: Option<Employee>)
    ensures e.Some? <==> id in employees
    ensures e.Some? ==> e.value == employees[id]
  {
    if id in employees then Some(employees[id]) else None
  }

  /** A task row as read with Include(AssignedEmployee).Include(Reviewer). */
  function Load(t: TaskEntity, employees: map<int, Employee>): (r: TaskEntity)
    ensures r.assignedEmployee == Lookup(employees, t.assignedEmployeeId)
    ensures r.reviewer == Lookup(employees, t.reviewerId)
    ensures r.(assignedEmployee := t.assignedEmployee, reviewer := t.reviewer) == t
  {
    t.(assignedEmployee := Lookup(employees, t.assignedEmployeeId),
       reviewer := Lookup(employees, t.reviewerId))
  }

  /** FirstOrDefault on the key, with both navigations loaded: the row, or
      null. */
  function FindLoaded(tasks: map<int, TaskEntity>, employees: map<int, Employee>, id: int): (r: Option<TaskEntity>)
    ensures r.Some? <==> id in tasks
    ensures r.Some? ==> r.value == Load(tasks[id], employees)
  {
    if id in tasks then Some(Load(tasks[id], employees)) else None
  }

  /** The loaded rows of the given keys, in the order of the keys. */
  function LoadedRows(tasks: map<int, TaskEntity>, employees: map<int, Employee>, keys: seq<int>): (rows: seq<TaskEntity>)
    requires forall i :: 0 <= i < |keys| ==> keys[i] in tasks
    ensures |rows| == |keys|
    ensures forall i :: 0 <= i < |keys| ==> rows[i] == Load(tasks[keys[i]], employees)
  {
    seq(|keys|, i requires 0 <= i < |keys| => Load(tasks[keys[i]], employees))
  }

  /** Every task row, loaded, in ascending TaskId order. */
  ghost function AllTaskRows(tasks: map<int, TaskEntity>, employees: map<int, Employee>): seq<TaskEntity> {
    AscendingFacts(tasks.Keys);
    LoadedRows(tasks, employees, Ascending(tasks.Keys))
  }

  /** Every employee row in ascending Id order. */
  ghost function AllEmployeeRows(employees: map<int, Employee>): (rows: seq<Employee>) {
    var keys := Ascending(employees.Keys);
    AscendingFacts(employees.Keys);
    seq(|keys|, i requires 0 <= i < |keys| => employees[keys[i]])
  }

  /** The row as the table stores it: navigations are not part of a row. */
  function StripTask(t: TaskEntity): TaskEntity {
    t.(assignedEmployee := None, reviewer := None)
  }

  function StripEmployee(e: Employee): Employee {
    e.(tasks := None)
  }

  ghost predicate TasksKeyed(tasks: map<int, TaskEntity>) {
    forall id :: id in tasks ==> tasks[id] == StripTask(tasks[id]) && tasks[id].taskId == id
  }

  ghost predicate EmployeesKeyed(employees: map<int, Employee>) {
    forall id :: id in employees ==> employees[id] == StripEmployee(employees[id]) && employees[id].id == id
  }

  /** Reading every task returns each stored row exactly once, loaded, in
      ascending TaskId order. */
  lemma AllTaskRowsComplete(tasks: map<int, TaskEntity>, employees: map<int, Employee>)
    requires TasksKeyed(tasks)
    ensures var rows := AllTaskRows(tasks, employees);
      && |rows| == |tasks|
      && (forall i :: 0 <= i < |rows| ==> rows[i].taskId in tasks && rows[i] == Load(tasks[rows[i].taskId], employees))
      && (forall id :: id in tasks ==> exists i :: 0 <= i < |rows| && rows[i].taskId == id)
      && (forall i, j :: 0 <= i < j < |rows| ==> rows[i].taskId < rows[j].taskId)
  {
    var keys := Ascending(tasks.Keys);
    AscendingFacts(tasks.Keys);
    var rows := AllTaskRows(tasks, employees);
    assert forall i :: 0 <= i < |rows| ==> rows[i].taskId == keys[i];
    forall id | id in tasks
      ensures exists i :: 0 <= i < |rows| && rows[i].taskId == id
    {
      assert id in keys;
      var i :| 0 <= i < |keys| && keys[i] == id;
      assert rows[i].taskId == id;
    }
  }

  /** Reading every employee returns each stored row exactly once, in
      ascending Id order. */
  lemma AllEmployeeRowsComplete(employees: map<int, Employee>)
    requires EmployeesKeyed(employees)
    ensures var rows := AllEmployeeRows(employees);
      && |rows| == |employees|
      && (forall i :: 0 <= i < |rows| ==> rows[i].id in employees && rows[i] == employees[rows[i].id])
      && (forall id :: id in employees ==> exists i :: 0 <= i < |rows| && rows[i].id == id)
      && (forall i, j :: 0 <= i < j < |rows| ==> rows[i].id < rows[j].id)
  {
    var keys := Ascending(employees.Keys);
    AscendingFacts(employees.Keys);
    var rows := AllEmployeeRows(employees);
    assert forall i :: 0 <= i < |rows| ==> rows[i] == employees[keys[i]] && rows[i].id == keys[i];
    forall id | id in employees
      ensures exists i :: 0 <= i < |rows| && rows[i].id == id
    {
      assert id in keys;
      var i :| 0 <= i < |keys| && keys[i] == id;
      assert rows[i].id == id;
    }
  }

  // ---------------------------------------------------------------------
  // Inserting a row

  /** The key an inserted row receives. A key of 0 (the CLR default) lets
      the identity column generate one; any other key is inserted as given
      and fails with a duplicate-key DbUpdateException when it is taken. */
  function InsertKey(keys: set<int>, next: int, id: int): (r: Throws<int>)
    requires forall k :: k in keys ==> k < next
    ensures r.Throw? <==> id != 0 && id in keys
    ensures r.Throw? ==> r.error.kind == DbUpdateException
    ensures r.Return? ==> r.value !in keys
    ensures id != 0 && r.Return? ==> r.value == id
  {
    if id == 0 then Return(next)
    else if id in keys then Throw(Exception(DbUpdateException, FrameworkMessage))
    else Return(id)
  }

  /** The identity counter after a row with the given key went in. */
  function NextAfter(next: int, key: int): (n: int)
    ensures n > key && n >= next
  {
    if key >= next then key + 1 else next
  }

  class Database {
    var tasks: map<int, TaskEntity>
    var employees: map<int, Employee>
    /** The next value of each identity column. */
    var nextTaskId: int
    var nextEmployeeId: int

    /** Rows are stored under their own key, without navigations, and every
        key lies below its identity counter. */
    ghost predicate Valid()
      reads this
    {
      && TasksKeyed(tasks)
      && EmployeesKeyed(employees)
      && (forall k :: k in tasks ==> k < nextTaskId)
      && (forall k :: k in employees ==> k < nextEmployeeId)
    }

    constructor()
      ensures Valid() && tasks == map[] && employees == map[]
    {
      tasks := map[];
      employees := map[];
      nextTaskId := 1;
      nextEmployeeId := 1;
    }

    /** Tasks.Add(t) followed by SaveChanges: the row goes in under the key
        InsertKey gives it, or nothing changes and a DbUpdateException is
        reported. */
    method AddTask(t: TaskEntity) returns (r: Throws<int>)
      requires Valid()
      modifies this
      ensures Valid()
      ensures r == InsertKey(old(tasks).Keys, old(nextTaskId), t.taskId)
      ensures r.Return? ==> tasks == old(tasks)[r.value := StripTask(t).(taskId := r.value)]
      ensures r.Throw? ==> tasks == old(tasks)
      ensures nextTaskId == if r.Return? then NextAfter(old(nextTaskId), r.value) else old(nextTaskId)
      ensures employees == old(employees) && nextEmployeeId == old(nextEmployeeId)
    {
      r := InsertKey(tasks.Keys, nextTaskId, t.taskId);
      if r.Return? {
        tasks := tasks[r.value := StripTask(t).(taskId := r.value)];
        nextTaskId := NextAfter(nextTaskId, r.value);
      }
    }

    /** Employees.Add(e) followed by SaveChanges. */
    method AddEmployee(e: Employee) returns (r: Throws<int>)
      requires Valid()
      modifies this
      ensures Valid()
      ensures r == InsertKey(old(employees).Keys, old(nextEmployeeId), e.id)
      ensures r.Return? ==> employees == old(employees)[r.value := StripEmployee(e).(id := r.value)]
      ensures r.Throw? ==> employees == old(employees)
      ensures nextEmployeeId == if r.Return? then NextAfter(old(nextEmployeeId), r.value) else old(nextEmployeeId)
      ensures tasks == old(tasks) && nextTaskId == old(nextTaskId)
    {
      r := InsertKey(employees.Keys, nextEmployeeId, e.id);
      if r.Return? {
        employees := employees[r.value := StripEmployee(e).(id := r.value)];
        nextEmployeeId := NextAfter(nextEmployeeId, r.value);
      }
    }
  }
}
