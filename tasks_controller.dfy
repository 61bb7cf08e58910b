/** The tasks API controller: the status transition table and the five
    HTTP handlers, working directly on the store. */
module TasksControllers {
  import opened Common
  import opened Text
  import opened Employees
  import opened TaskEntities
  import opened TaskDtos
  import opened Store
  import opened TaskRepositories

  /** The transition table: NotStarted may only start Working; Working and
      Pending may move to each other or to Completed; Completed is final. */
  function IsValidStatusTransition(current: TaskStatus, next: TaskStatus): bool {
    match current
    case NotStarted => next == Working
    case Working => next == Pending || next == Completed
    case Pending => next == Working || next == Completed
    case Completed => false
  }

  /** The table allows exactly these five moves. */
  lemma TransitionTableExact(current: TaskStatus, next: TaskStatus)
    ensures IsValidStatusTransition(current, next) <==>
      || (current == NotStarted && next == Working)
      || (current == Working && next == Pending)
      || (current == Working && next == Completed)
      || (current == Pending && next == Working)
      || (current == Pending && next == Completed)
  {
  }

  /** No status moves to itself, nothing moves back to NotStarted, nothing
      leaves Completed, and every other status can reach Completed. */
  lemma TransitionConsequences(s: TaskStatus, t: TaskStatus)
    ensures !IsValidStatusTransition(s, s)
    ensures !IsValidStatusTransition(s, NotStarted)
    ensures !IsValidStatusTransition(Completed, t)
    ensures s == Working || s == Pending ==> IsValidStatusTransition(s, Completed)
    ensures IsValidStatusTransition(NotStarted, Working) && IsValidStatusTransition(Working, Completed)
  {
  }

  /** A move the table allows always changes the status, so UpdateStatus,
      applied with that move, would record its time in the status-change
      dictionary. */
  lemma ValidTransitionRecordsTime(dates: map<int, Ticks>, t: TaskDTO, next: TaskStatus, now: Ticks)
    requires IsValidStatusTransition(t.status, next)
    ensures StatusChangeDateIn(DatesAfterUpdate(dates, t, next, now), t.(status := next)) == Some(now)
  {
    StatusChangeDateAfterUpdate(dates, t, next, now);
  }

  /** `{status}` for an enum value: the member name, or the number for a
      value no member has. */
  function EnumText(v: int): (s: string)
    ensures StatusFromValue(v).Some? ==> s == StatusName(StatusFromValue(v).value)
  {
    match StatusFromValue(v)
    case Some(st) => StatusName(st)
    case None => IntToString(v)
  }

  /** IsValidStatusTransition on the raw value the request carries: a value
      outside 0..3 matches no allowed target. */
  function IsValidRawTransition(current: TaskStatus, v: int): (ok: bool)
    ensures ok ==> StatusFromValue(v).Some? && IsValidStatusTransition(current, StatusFromValue(v).value)
    ensures StatusFromValue(v).Some? && IsValidStatusTransition(current, StatusFromValue(v).value) ==> ok
  {
    match StatusFromValue(v)
    case None => false
    case Some(next) => IsValidStatusTransition(current, next)
  }

  const InvalidEmployeeIds: string := "Invalid AssignedEmployeeId or ReviewerId"
  const SaveErrorPrefix: string := "Error saving task: "

  /** "Invalid status transition from {current} to {new}". */
  function InvalidTransitionMessage(current: TaskStatus, v: int): string {
    "Invalid status transition from " + StatusName(current) + " to " + EnumText(v)
  }

  /** The HTTP results the handlers produce. */
  datatype ActionResult =
    | Ok(tasks: seq<TaskEntity>)
    | Created(task: TaskEntity)
    | NoContent
    | NotFound
    | BadRequest(message: Option<string>)
    | ValidationProblem(errors: seq<string>)

  /** Both employee ids of the task name stored employees. */
  predicate EmployeesExist(employees: map<int, Employee>, t: TaskEntity) {
    t.assignedEmployeeId in employees && t.reviewerId in employees
  }

  class TasksController {
    const db: Database

    constructor(db: Database)
      ensures this.db == db
    {
      this.db := db;
    }

    /** Every task with both navigations loaded, or NotFound when there is
        none. */
    method GetTasks() returns (result: ActionResult)
      requires db.Valid()
      ensures db.tasks == map[] ==> result == NotFound
      ensures db.tasks != map[] ==> result == Ok(AllTaskRows(db.tasks, db.employees))
    {
      var keys := AscendingKeys(db.tasks.Keys);
      AscendingFacts(db.tasks.Keys);
      var tasks := LoadedRows(db.tasks, db.employees, keys);
      if tasks != [] {
        return Ok(tasks);
      }
      result := NotFound;
    }

    /** Model validation, then both employees must exist, then the insert;
        a refused insert is a BadRequest and writes nothing. */
    method AddTask(t: TaskEntity) returns (result: ActionResult)
      requires db.Valid()
      modifies db
      ensures db.Valid()
      ensures db.employees == old(db.employees)
      ensures !ValidTaskEntity(t) ==>
        result == ValidationProblem(TaskEntityErrors(t)) && db.tasks == old(db.tasks)
      ensures ValidTaskEntity(t) && !EmployeesExist(old(db.employees), t) ==>
        result == BadRequest(Some(InvalidEmployeeIds)) && db.tasks == old(db.tasks)
      ensures ValidTaskEntity(t) && EmployeesExist(old(db.employees), t) ==>
        match InsertKey(old(db.tasks).Keys, old(db.nextTaskId), t.taskId)
        case Throw(e) => result == BadRequest(Some(SaveErrorPrefix + e.message)) && db.tasks == old(db.tasks)
        case Return(k) =>
          && db.tasks == old(db.tasks)[k := StripTask(t).(taskId := k)]
          && result == Created(Load(db.tasks[k], db.employees))
    {
      ValidTaskEntityIffNoErrors(t);
      var errors := TaskEntityErrors(t);
      if errors != [] {
        return ValidationProblem(errors);
      }
      var assignedExists := t.assignedEmployeeId in db.employees;
      var reviewerExists := t.reviewerId in db.employees;
      if !assignedExists || !reviewerExists {
        return BadRequest(Some(InvalidEmployeeIds));
      }
      var key := db.AddTask(t);
      match key
      case Throw(e) =>
        result := BadRequest(Some(SaveErrorPrefix + e.message));
      case Return(k) =>
        var saved := FindLoaded(db.tasks, db.employees, k);
        result := Created(saved.value);
    }

    /** Model validation, then the route id must equal the body's TaskId,
        then both employees must exist, then the task must exist; only then
        are the five scalar fields copied, with no transition check. */
    method UpdateTask(id: int, t: TaskEntity) returns (result: ActionResult)
      requires db.Valid()
      modifies db
      ensures db.nextTaskId == old(db.nextTaskId) && db.nextEmployeeId == old(db.nextEmployeeId)
      ensures db.Valid()
      ensures db.employees == old(db.employees)
      ensures !ValidTaskEntity(t) ==> result == ValidationProblem(TaskEntityErrors(t))
      ensures ValidTaskEntity(t) && id != t.taskId ==> result == BadRequest(None)
      ensures (ValidTaskEntity(t) && id == t.taskId && !EmployeesExist(old(db.employees), t)) ==>
        result == BadRequest(Some(InvalidEmployeeIds))
      ensures (ValidTaskEntity(t) && id == t.taskId && EmployeesExist(old(db.employees), t)) ==>
        result == (if id in old(db.tasks) then NoContent else NotFound)
      ensures result == NoContent ==> db.tasks == TasksAfterUpdate(old(db.tasks), t)
      ensures result != NoContent ==> db.tasks == old(db.tasks)
    {
      ValidTaskEntityIffNoErrors(t);
      var errors := TaskEntityErrors(t);
      if errors != [] {
        return ValidationProblem(errors);
      }
      if id != t.taskId {
        return BadRequest(None);
      }
      var assignedExists := t.assignedEmployeeId in db.employees;
      var reviewerExists := t.reviewerId in db.employees;
      if !assignedExists || !reviewerExists {
        return BadRequest(Some(InvalidEmployeeIds));
      }
      if id !in db.tasks {
        return NotFound;
      }
      UpdatesKeepKeyed(db.tasks, t, id, t.status);
      db.tasks := db.tasks[id := CopyScalars(db.tasks[id], t)];
      result := NoContent;
    }

    /** Removes exactly that task, or NotFound. */
    method DeleteTask(id: int) returns (result: ActionResult)
      requires db.Valid()
      modifies db
      ensures db.nextTaskId == old(db.nextTaskId) && db.nextEmployeeId == old(db.nextEmployeeId)
      ensures db.Valid()
      ensures db.employees == old(db.employees)
      ensures result == (if id in old(db.tasks) then NoContent else NotFound)
      ensures db.tasks == old(db.tasks) - {id}
    {
      if id !in db.tasks {
        return NotFound;
      }
      db.tasks := db.tasks - {id};
      result := NoContent;
    }

    /** Moves the task to the status with value v when the table allows it;
        NotFound for a missing task and BadRequest for a move the table
        refuses, both writing nothing. */
    method UpdateTaskStatus(id: int, v: int) returns (result: ActionResult)
      requires db.Valid()
      modifies db
      ensures db.nextTaskId == old(db.nextTaskId) && db.nextEmployeeId == old(db.nextEmployeeId)
      ensures db.Valid()
      ensures db.employees == old(db.employees)
      ensures id !in old(db.tasks) ==> result == NotFound && db.tasks == old(db.tasks)
      ensures id in old(db.tasks) && !IsValidRawTransition(old(db.tasks)[id].status, v) ==>
        result == BadRequest(Some(InvalidTransitionMessage(old(db.tasks)[id].status, v))) &&
        db.tasks == old(db.tasks)
      ensures id in old(db.tasks) && IsValidRawTransition(old(db.tasks)[id].status, v) ==>
        result == NoContent &&
        db.tasks == TasksAfterStatus(old(db.tasks), id, StatusFromValue(v).value)
    {
      if id !in db.tasks {
        return NotFound;
      }
      var existing := db.tasks[id];
      if !IsValidRawTransition(existing.status, v) {
        return BadRequest(Some(InvalidTransitionMessage(existing.status, v)));
      }
      var next := StatusFromValue(v).value;
      UpdatesKeepKeyed(db.tasks, existing, id, next);
      db.tasks := db.tasks[id := existing.(status := next)];
      result := NoContent;
    }
  }

  /** A status update the controller accepts never leaves Completed, never
      returns to NotStarted and always changes the stored status. */
  lemma AcceptedStatusUpdate(tasks: map<int, TaskEntity>, id: int, v: int)
    requires id in tasks && IsValidRawTransition(tasks[id].status, v)
    ensures var after := TasksAfterStatus(tasks, id, StatusFromValue(v).value);
      && tasks[id].status != Completed
      && after[id].status != NotStarted
      && after[id].status != tasks[id].status
  {
  }
}
