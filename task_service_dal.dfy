/** The exception-throwing task service of the data layer: the guard chain of
    an update, the name enrichment of read results, the per-employee filter
    and the modify permission, over the two repositories. */
module TaskServicesDal {
  import opened Common
  import opened Text
  import opened Employees
  import opened TaskEntities
  import opened TaskDtos
  import opened TaskMapping
  import opened Store
  import opened TaskRepositories
  import opened EmployeeRepositories

  /** "Task with ID {id} not found". */
  function TaskNotFound(id: int): string {
    "Task with ID " + IntToString(id) + " not found"
  }

  /** "Employee with ID {id} not found" (no final period, unlike the
      employee repository's message). */
  function EmployeeMissing(id: int): string {
    "Employee with ID " + IntToString(id) + " not found"
  }

  const StartDateFrozen: string := "Cannot modify start date for tasks that have already started"
  const DeadlineFrozen: string := "Cannot modify deadline for completed tasks"

  /** The start date of a task that has left NotStarted may not change. */
  predicate StartDateLocked(existing: TaskEntity, d: TaskDTO) {
    existing.status != NotStarted && d.startDate != existing.startDate
  }

  /** The deadline of a Completed task may not change. */
  predicate DeadlineLocked(existing: TaskEntity, d: TaskDTO) {
    existing.status == Completed && d.deadlineDate != existing.deadlineDate
  }

  /** The exception UpdateAsync(d) throws before writing anything, given the
      stored row (null when absent), or None when it goes on to write. The
      checks run in order: the dates of d, existence, the frozen start date,
      the frozen deadline. */
  function UpdateRejection(existing: Option<TaskEntity>, d: TaskDTO): (r: Option<Exception>)
    ensures r.None? <==>
      ValidateDates(d).Return? && existing.Some? &&
      !StartDateLocked(existing.value, d) && !DeadlineLocked(existing.value, d)
  {
    match ValidateDates(d)
    case Throw(e) => Some(e)
    case Return(_) =>
      if existing.None? then Some(Exception(KeyNotFoundException, TaskNotFound(d.taskId)))
      else if StartDateLocked(existing.value, d) then Some(Exception(ValidationException, StartDateFrozen))
      else if DeadlineLocked(existing.value, d) then Some(Exception(ValidationException, DeadlineFrozen))
      else None
  }

  /** Each check reports only when every earlier one passed: bad dates win
      over a missing task, a missing task over a locked start date, and a
      locked start date over a locked deadline. */
  lemma UpdateGuardOrder(existing: Option<TaskEntity>, d: TaskDTO)
    ensures ValidateDates(d).Throw? ==> UpdateRejection(existing, d) == Some(ValidateDates(d).error)
    ensures ValidateDates(d).Return? && existing.None? ==>
      UpdateRejection(existing, d) == Some(Exception(KeyNotFoundException, TaskNotFound(d.taskId)))
    ensures ValidateDates(d).Return? && existing.Some? && StartDateLocked(existing.value, d) ==>
      UpdateRejection(existing, d) == Some(Exception(ValidationException, StartDateFrozen))
    ensures (ValidateDates(d).Return? && existing.Some? && !StartDateLocked(existing.value, d) &&
             DeadlineLocked(existing.value, d)) ==>
      UpdateRejection(existing, d) == Some(Exception(ValidationException, DeadlineFrozen))
  {
  }

  /** A Completed task accepts an update only when it keeps both stored
      dates. */
  lemma CompletedKeepsDates(existing: TaskEntity, d: TaskDTO)
    requires existing.status == Completed
    requires UpdateRejection(Some(existing), d).None?
    ensures d.startDate == existing.startDate && d.deadlineDate == existing.deadlineDate
  {
  }

  /** What the update writes does not depend on the dates the caller sent:
      the repository copies five scalar fields and keeps the stored dates, so
      an accepted new start date of a NotStarted task is dropped. */
  lemma DateEditsIgnored(tasks: map<int, TaskEntity>, d: TaskDTO, start: Ticks, deadline: Ticks, now: Ticks)
    requires d.taskId in tasks
    ensures TasksAfterUpdate(tasks, MapToEntity(d, now)) ==
      TasksAfterUpdate(tasks, MapToEntity(d.(startDate := start, deadlineDate := deadline), now))
    ensures TasksAfterUpdate(tasks, MapToEntity(d, now))[d.taskId].startDate == tasks[d.taskId].startDate
  {
  }

  // ---------------------------------------------------------------------
  // Name enrichment

  /** One iteration of the enrichment loop: both display names are looked
      up by id in the employee table. */
  function WithLookedUpNames(d: TaskDTO, employees: map<int, Employee>): (r: TaskDTO)
    ensures r.assignedEmployeeName == EmployeeNameById(employees, d.assignedEmployeeId)
    ensures r.reviewerName == EmployeeNameById(employees, d.reviewerId)
    ensures r.(assignedEmployeeName := d.assignedEmployeeName, reviewerName := d.reviewerName) == d
  {
    d.(assignedEmployeeName := EmployeeNameById(employees, d.assignedEmployeeId),
       reviewerName := EmployeeNameById(employees, d.reviewerId))
  }

  /** The `foreach` that sets AssignedEmployeeName and ReviewerName of every
      DTO from the employee table. */
  method EnrichNames(dtos: seq<TaskDTO>, employees: map<int, Employee>) returns (out: seq<TaskDTO>)
    ensures |out| == |dtos|
    ensures forall i :: 0 <= i < |dtos| ==> out[i] == WithLookedUpNames(dtos[i], employees)
  {
    out := dtos;
    var i := 0;
    while i < |out|
      invariant |out| == |dtos| && 0 <= i <= |out|
      invariant forall j :: 0 <= j < i ==> out[j] == WithLookedUpNames(dtos[j], employees)
      invariant forall j :: i <= j < |out| ==> out[j] == dtos[j]
    {
      out := out[i := WithLookedUpNames(out[i], employees)];
      i := i + 1;
    }
  }

  /** Rows whose navigations were loaded from this employee table. */
  predicate LoadedFrom(rows: seq<TaskEntity>, employees: map<int, Employee>) {
    forall i :: 0 <= i < |rows| ==>
      rows[i].assignedEmployee == Lookup(employees, rows[i].assignedEmployeeId) &&
      rows[i].reviewer == Lookup(employees, rows[i].reviewerId)
  }

  /** For loaded rows the lookup gives the names the navigations already
      gave, so enriching the mapped DTOs changes nothing. The loop's
      assignments are therefore invisible whether or not they reach the
      DTOs the caller enumerates. */
  lemma EnrichmentMatchesNavigation(rows: seq<TaskEntity>, employees: map<int, Employee>)
    requires LoadedFrom(rows, employees)
    ensures forall i :: 0 <= i < |rows| ==>
      WithLookedUpNames(MapToDTOs(rows)[i], employees) == MapToDTOs(rows)[i]
  {
    forall i | 0 <= i < |rows|
      ensures WithLookedUpNames(MapToDTOs(rows)[i], employees) == MapToDTOs(rows)[i]
    {
      var t := rows[i];
      assert NavigationName(t.assignedEmployee) == EmployeeNameById(employees, t.assignedEmployeeId);
      assert NavigationName(t.reviewer) == EmployeeNameById(employees, t.reviewerId);
    }
  }

  lemma AllTaskRowsLoaded(tasks: map<int, TaskEntity>, employees: map<int, Employee>)
    ensures LoadedFrom(AllTaskRows(tasks, employees), employees)
  {
    AscendingFacts(tasks.Keys);
  }

  // ---------------------------------------------------------------------
  // Per-employee filter and modify permission

  /** `Where(t => t.AssignedEmployeeId == employeeId)`. */
  function AssignedTo(rows: seq<TaskEntity>, employeeId: int): (r: seq<TaskEntity>)
    ensures |r| <= |rows|
    ensures forall t :: t in r <==> t in rows && t.assignedEmployeeId == employeeId
  {
    if rows == [] then []
    else
      var rest := AssignedTo(rows[1..], employeeId);
      assert forall t :: t in rows <==> t == rows[0] || t in rows[1..];
      if rows[0].assignedEmployeeId == employeeId then [rows[0]] + rest else rest
  }

  /** Strictly increasing TaskIds, the order in which reads return rows. */
  predicate SortedById(rows: seq<TaskEntity>) {
    forall i, j :: 0 <= i < j < |rows| ==> rows[i].taskId < rows[j].taskId
  }

  lemma PrependSorted(x: TaskEntity, s: seq<TaskEntity>)
    requires SortedById(s)
    requires forall k :: 0 <= k < |s| ==> x.taskId < s[k].taskId
    ensures SortedById([x] + s)
  {
    var r := [x] + s;
    forall i, j | 0 <= i < j < |r|
      ensures r[i].taskId < r[j].taskId
    {
      assert r[j] == s[j - 1];
      if i > 0 {
        assert r[i] == s[i - 1];
      }
    }
  }

  /** The filter keeps the repository order: rows sorted by TaskId stay
      sorted. */
  lemma {:induction false} AssignedToKeepsOrder(rows: seq<TaskEntity>, employeeId: int)
    requires SortedById(rows)
    ensures SortedById(AssignedTo(rows, employeeId))
  {
    if rows != [] {
      var tail := rows[1..];
      assert SortedById(tail) by {
        forall i, j | 0 <= i < j < |tail|
          ensures tail[i].taskId < tail[j].taskId
        {
          assert tail[i] == rows[i + 1] && tail[j] == rows[j + 1];
        }
      }
      AssignedToKeepsOrder(tail, employeeId);
      var rest := AssignedTo(tail, employeeId);
      if rows[0].assignedEmployeeId == employeeId {
        forall k | 0 <= k < |rest|
          ensures rows[0].taskId < rest[k].taskId
        {
          assert rest[k] in rest;
          var m :| 0 <= m < |tail| && tail[m] == rest[k];
          assert rows[m + 1] == rest[k];
        }
        PrependSorted(rows[0], rest);
      }
    }
  }

  /** The employee may modify the task: they are its assignee or its
      reviewer, and it is not Completed. */
  predicate CanModify(t: TaskEntity, employeeId: int) {
    (t.assignedEmployeeId == employeeId || t.reviewerId == employeeId) && t.status != Completed
  }

  /** A Completed task cannot be modified by anyone, and someone who is
      neither assignee nor reviewer can modify nothing. */
  lemma CanModifyFacts(t: TaskEntity, employeeId: int)
    ensures t.status == Completed ==> !CanModify(t, employeeId)
    ensures t.assignedEmployeeId != employeeId && t.reviewerId != employeeId ==> !CanModify(t, employeeId)
    ensures t.status != Completed && t.assignedEmployeeId == employeeId ==> CanModify(t, employeeId)
  {
  }

  class TaskService {
    const taskRepository: TaskRepository
    const employeeRepository: EmployeeRepository

    constructor(taskRepository: TaskRepository, employeeRepository: EmployeeRepository)
      ensures this.taskRepository == taskRepository && this.employeeRepository == employeeRepository
    {
      this.taskRepository := taskRepository;
      this.employeeRepository := employeeRepository;
    }

    /** Both repositories work on the same store. */
    predicate Shared() {
      taskRepository.db == employeeRepository.db
    }

    /** The task as a DTO; KeyNotFoundException for an absent id. */
    method GetByIdAsync(id: int) returns (r: Throws<TaskDTO>)
      requires Shared()
      ensures id !in taskRepository.db.tasks ==> r == Throw(Exception(KeyNotFoundException, TaskNotFound(id)))
      ensures id in taskRepository.db.tasks ==>
        r == Return(MapToDTO(Load(taskRepository.db.tasks[id], taskRepository.db.employees)))
    {
      var entity := taskRepository.GetTaskByIdAsync(id);
      if entity.None? {
        return Throw(Exception(KeyNotFoundException, TaskNotFound(id)));
      }
      r := Return(MapToDTO(entity.value));
    }

    /** Every task as a DTO, in key order, whose two display names are those
        of the employees with the task's ids. */
    method GetAllAsync() returns (dtos: seq<TaskDTO>)
      requires Shared() && taskRepository.db.Valid()
      ensures dtos == MapToDTOs(AllTaskRows(taskRepository.db.tasks, taskRepository.db.employees))
      ensures forall i :: 0 <= i < |dtos| ==>
        dtos[i].assignedEmployeeName == EmployeeNameById(taskRepository.db.employees, dtos[i].assignedEmployeeId) &&
        dtos[i].reviewerName == EmployeeNameById(taskRepository.db.employees, dtos[i].reviewerId)
    {
      var entities := taskRepository.GetAllTasksAsync();
      var mapped := MapToDTOs(entities);
      dtos := EnrichNames(mapped, employeeRepository.db.employees);
      AllTaskRowsLoaded(taskRepository.db.tasks, taskRepository.db.employees);
      EnrichmentMatchesNavigation(entities, taskRepository.db.employees);
    }

    /** Validates the dates, maps the DTO at time `now` and inserts it;
        returns the stored row as a DTO with its names looked up. Nothing
        is written when the dates fail or the insert is refused. */
    method CreateAsync(d: TaskDTO, now: Ticks) returns (r: Throws<TaskDTO>)
      requires Shared() && taskRepository.db.Valid()
      modifies taskRepository.db
      ensures taskRepository.db.Valid()
      ensures taskRepository.db.employees == old(taskRepository.db.employees)
      ensures ValidateDates(d).Throw? ==>
        r == Throw(ValidateDates(d).error) && taskRepository.db.tasks == old(taskRepository.db.tasks)
      ensures ValidateDates(d).Return? ==>
        match InsertKey(old(taskRepository.db.tasks).Keys, old(taskRepository.db.nextTaskId), d.taskId)
        case Throw(e) => r == Throw(e) && taskRepository.db.tasks == old(taskRepository.db.tasks)
        case Return(k) =>
          && taskRepository.db.tasks == old(taskRepository.db.tasks)[k := StripTask(MapToEntity(d, now)).(taskId := k)]
          && r == Return(MapToDTO(Load(taskRepository.db.tasks[k], taskRepository.db.employees)))
    {
      var valid := ValidateDates(d);
      if valid.Throw? {
        return Throw(valid.error);
      }
      var entity := MapToEntity(d, now);
      var created := taskRepository.AddTaskAsync(entity);
      match created
      case Throw(e) =>
        r := Throw(e);
      case Return(row) =>
        var dto := WithLookedUpNames(MapToDTO(row), employeeRepository.db.employees);
        EnrichmentMatchesNavigation([row], taskRepository.db.employees);
        assert MapToDTOs([row])[0] == MapToDTO(row);
        r := Return(dto);
    }

    /** Runs the guard chain and, when it passes, copies the five scalar
        fields of the mapped DTO onto the stored row. */
    method UpdateAsync(d: TaskDTO, now: Ticks) returns (r: Throws<()>)
      requires Shared() && taskRepository.db.Valid()
      modifies taskRepository.db
      ensures taskRepository.db.nextTaskId == old(taskRepository.db.nextTaskId) && taskRepository.db.nextEmployeeId == old(taskRepository.db.nextEmployeeId)
      ensures taskRepository.db.Valid()
      ensures taskRepository.db.employees == old(taskRepository.db.employees)
      ensures match UpdateRejection(FindLoaded(old(taskRepository.db.tasks), old(taskRepository.db.employees), d.taskId), d)
        case Some(e) => r == Throw(e) && taskRepository.db.tasks == old(taskRepository.db.tasks)
        case None =>
          r == Return(()) && taskRepository.db.tasks == TasksAfterUpdate(old(taskRepository.db.tasks), MapToEntity(d, now))
    {
      var valid := ValidateDates(d);
      if valid.Throw? {
        return Throw(valid.error);
      }
      var existing := taskRepository.GetTaskByIdAsync(d.taskId);
      if existing.None? {
        return Throw(Exception(KeyNotFoundException, TaskNotFound(d.taskId)));
      }
      if StartDateLocked(existing.value, d) {
        return Throw(Exception(ValidationException, StartDateFrozen));
      }
      if DeadlineLocked(existing.value, d) {
        return Throw(Exception(ValidationException, DeadlineFrozen));
      }
      var entity := MapToEntity(d, now);
      var _ := taskRepository.UpdateTaskAsync(entity);
      r := Return(());
    }

    /** Deletes the row if there is one; an absent id is not an error. */
    method DeleteAsync(id: int)
      requires taskRepository.db.Valid()
      modifies taskRepository.db
      ensures taskRepository.db.nextTaskId == old(taskRepository.db.nextTaskId) && taskRepository.db.nextEmployeeId == old(taskRepository.db.nextEmployeeId)
      ensures taskRepository.db.Valid()
      ensures taskRepository.db.tasks == old(taskRepository.db.tasks) - {id}
      ensures taskRepository.db.employees == old(taskRepository.db.employees)
    {
      var _ := taskRepository.DeleteTaskAsync(id);
    }

    /** The tasks assigned to an existing employee, as DTOs in key order;
        KeyNotFoundException for an unknown employee. */
    method GetTasksByEmployeeAsync(employeeId: int) returns (r: Throws<seq<TaskDTO>>)
      requires Shared() && taskRepository.db.Valid()
      ensures employeeId !in taskRepository.db.employees ==>
        r == Throw(Exception(KeyNotFoundException, EmployeeMissing(employeeId)))
      ensures employeeId in taskRepository.db.employees ==>
        r == Return(MapToDTOs(AssignedTo(AllTaskRows(taskRepository.db.tasks, taskRepository.db.employees), employeeId)))
    {
      var exists_ := taskRepository.EmployeeExistsAsync(employeeId);
      if !exists_ {
        return Throw(Exception(KeyNotFoundException, EmployeeMissing(employeeId)));
      }
      var entities := taskRepository.GetAllTasksAsync();
      var mine := AssignedTo(entities, employeeId);
      var mapped := MapToDTOs(mine);
      var dtos := EnrichNames(mapped, employeeRepository.db.employees);
      AllTaskRowsLoaded(taskRepository.db.tasks, taskRepository.db.employees);
      assert LoadedFrom(mine, taskRepository.db.employees) by {
        forall i | 0 <= i < |mine|
          ensures mine[i] in entities
        {
          assert mine[i] in mine;
        }
      }
      EnrichmentMatchesNavigation(mine, taskRepository.db.employees);
      assert dtos == mapped;
      r := Return(dtos);
    }

    /** False for a missing task; otherwise whether the employee is its
        assignee or reviewer and it is not Completed. */
    method CanEmployeeModifyTaskAsync(employeeId: int, taskId: int) returns (b: bool)
      ensures b <==> taskId in taskRepository.db.tasks && CanModify(taskRepository.db.tasks[taskId], employeeId)
    {
      var task := taskRepository.GetTaskByIdAsync(taskId);
      b := task.Some? && CanModify(task.value, employeeId);
    }
  }
}
