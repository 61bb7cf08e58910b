/** The envelope-returning task service of the core layer: the same reads,
    writes and checks as the data-layer service, with every outcome reported
    as a ResponseMessage instead of a thrown exception. */
module TaskServicesCore {
  import opened Common
  import opened Employees
  import opened TaskEntities
  import opened TaskDtos
  import opened TaskMapping
  import opened Store
  import opened TaskRepositories
  import opened EmployeeRepositories
  import opened Responses
  import opened TaskServicesDal

  const ValidationPrefix: string := "Validation error: "
  const CreatePrefix: string := "Error creating task: "
  const TaskCreated: string := "Task created successfully"
  const TaskUpdated: string := "Task updated successfully"
  const TaskDeleted: string := "Task deleted successfully"

  /** The failure envelope of CreateAsync for an exception: a
      ValidationException is caught first and reported as a validation
      error, anything else as a creation error. */
  function CreateFailure(e: Exception): (r: ResponseMessage<TaskDTO>)
    ensures !r.success && r.data.None?
    ensures e.kind == ValidationException <==> r.message == Some(ValidationPrefix + e.message)
  {
    if e.kind == ValidationException then FailureResult(ValidationPrefix + e.message)
    else
      assert (CreatePrefix + e.message)[0] != (ValidationPrefix + e.message)[0];
      FailureResult(CreatePrefix + e.message)
  }

  /** The envelope UpdateAsync(d) returns, given the stored row (null when
      absent): the date check reports through the ValidationException
      handler, the other checks return their failure directly. */
  function UpdateResponse(existing: Option<TaskEntity>, d: TaskDTO): (r: ResponseMessage<bool>)
    ensures r.success <==> UpdateRejection(existing, d).None?
    ensures r.success ==> r == SuccessResult(true, TaskUpdated)
    ensures !r.success ==> r.data.None? && r.message == Some(
      if ValidateDates(d).Throw? then ValidationPrefix + UpdateRejection(existing, d).value.message
      else UpdateRejection(existing, d).value.message)
  {
    match ValidateDates(d)
    case Throw(e) => FailureResult(ValidationPrefix + e.message)
    case Return(_) =>
      if existing.None? then FailureResult(TaskNotFound(d.taskId))
      else if existing.value.status != NotStarted && d.startDate != existing.value.startDate then
        FailureResult(StartDateFrozen)
      else if existing.value.status == Completed && d.deadlineDate != existing.value.deadlineDate then
        FailureResult(DeadlineFrozen)
      else SuccessResult(true, TaskUpdated)
  }

  /** A NotStarted task whose dates are valid is accepted whatever dates are
      sent; any other task refuses a new start date, and a Completed task
      that resends its start date refuses a new deadline. */
  lemma UpdateResponseFacts(existing: TaskEntity, d: TaskDTO)
    requires ValidateDates(d).Return?
    ensures existing.status == NotStarted ==> UpdateResponse(Some(existing), d).success
    ensures existing.status != NotStarted && d.startDate != existing.startDate ==>
      UpdateResponse(Some(existing), d) == FailureResult(StartDateFrozen)
    ensures (existing.status == Completed && d.startDate == existing.startDate &&
             d.deadlineDate != existing.deadlineDate) ==>
      UpdateResponse(Some(existing), d) == FailureResult(DeadlineFrozen)
  {
  }

  class TaskService {
    const taskRepository: TaskRepository
    const employeeRepository: EmployeeRepository

    constructor(taskRepository: TaskRepository, employeeRepository: EmployeeRepository)
      ensures this.taskRepository == taskRepository && this.employeeRepository == employeeRepository
    {
      this.taskRepository := taskRepository;
      this.employeeRepository := employeeRepository;
    }

    predicate Shared() {
      taskRepository.db == employeeRepository.db
    }

    /** Success with the task as a DTO, or failure "Task with ID {id} not
        found". */
    method GetByIdAsync(id: int) returns (r: ResponseMessage<TaskDTO>)
      ensures id !in taskRepository.db.tasks ==> r == FailureResult(TaskNotFound(id))
      ensures id in taskRepository.db.tasks ==>
        r == SuccessResult(MapToDTO(Load(taskRepository.db.tasks[id], taskRepository.db.employees)))
    {
      var entity := taskRepository.GetTaskByIdAsync(id);
      if entity.None? {
        return FailureResult(TaskNotFound(id));
      }
      r := SuccessResult(MapToDTO(entity.value));
    }

    /** Success with every task as a DTO, names looked up, in key order. */
    method GetAllAsync() returns (r: ResponseMessage<seq<TaskDTO>>)
      requires Shared() && taskRepository.db.Valid()
      ensures r == SuccessResult(MapToDTOs(AllTaskRows(taskRepository.db.tasks, taskRepository.db.employees)))
      ensures forall i :: 0 <= i < |r.data.value| ==>
        r.data.value[i].assignedEmployeeName == EmployeeNameById(taskRepository.db.employees, r.data.value[i].assignedEmployeeId) &&
        r.data.value[i].reviewerName == EmployeeNameById(taskRepository.db.employees, r.data.value[i].reviewerId)
    {
      var entities := taskRepository.GetAllTasksAsync();
      var mapped := MapToDTOs(entities);
      var dtos := EnrichNames(mapped, employeeRepository.db.employees);
      AllTaskRowsLoaded(taskRepository.db.tasks, taskRepository.db.employees);
      EnrichmentMatchesNavigation(entities, taskRepository.db.employees);
      assert dtos == mapped;
      r := SuccessResult(dtos);
    }

    /** Validates the dates before any insert; a refused date or insert is
        a failure envelope and writes nothing. */
    method CreateAsync(d: TaskDTO, now: Ticks) returns (r: ResponseMessage<TaskDTO>)
      requires Shared() && taskRepository.db.Valid()
      modifies taskRepository.db
      ensures taskRepository.db.Valid()
      ensures taskRepository.db.employees == old(taskRepository.db.employees)
      ensures ValidateDates(d).Throw? ==>
        r == FailureResult(ValidationPrefix + ValidateDates(d).error.message) &&
        taskRepository.db.tasks == old(taskRepository.db.tasks)
      ensures ValidateDates(d).Return? ==>
        match InsertKey(old(taskRepository.db.tasks).Keys, old(taskRepository.db.nextTaskId), d.taskId)
        case Throw(e) => r == CreateFailure(e) && taskRepository.db.tasks == old(taskRepository.db.tasks)
        case Return(k) =>
          && taskRepository.db.tasks == old(taskRepository.db.tasks)[k := StripTask(MapToEntity(d, now)).(taskId := k)]
          && r == SuccessResult(MapToDTO(Load(taskRepository.db.tasks[k], taskRepository.db.employees)), TaskCreated)
    {
      var valid := ValidateDates(d);
      if valid.Throw? {
        return CreateFailure(valid.error);
      }
      var entity := MapToEntity(d, now);
      var created := taskRepository.AddTaskAsync(entity);
      match created
      case Throw(e) =>
        r := CreateFailure(e);
      case Return(row) =>
        var dto := WithLookedUpNames(MapToDTO(row), employeeRepository.db.employees);
        EnrichmentMatchesNavigation([row], taskRepository.db.employees);
        assert MapToDTOs([row])[0] == MapToDTO(row);
        r := SuccessResult(dto, TaskCreated);
    }

    /** Runs the guard chain; only a success writes, copying the five
        scalar fields of the mapped DTO onto the stored row. */
    method UpdateAsync(d: TaskDTO, now: Ticks) returns (r: ResponseMessage<bool>)
      requires Shared() && taskRepository.db.Valid()
      modifies taskRepository.db
      ensures taskRepository.db.nextTaskId == old(taskRepository.db.nextTaskId) && taskRepository.db.nextEmployeeId == old(taskRepository.db.nextEmployeeId)
      ensures taskRepository.db.Valid()
      ensures taskRepository.db.employees == old(taskRepository.db.employees)
      ensures r == UpdateResponse(FindLoaded(old(taskRepository.db.tasks), old(taskRepository.db.employees), d.taskId), d)
      ensures r.success ==> taskRepository.db.tasks == TasksAfterUpdate(old(taskRepository.db.tasks), MapToEntity(d, now))
      ensures !r.success ==> taskRepository.db.tasks == old(taskRepository.db.tasks)
    {
      var valid := ValidateDates(d);
      if valid.Throw? {
        return FailureResult(ValidationPrefix + valid.error.message);
      }
      var existing := taskRepository.GetTaskByIdAsync(d.taskId);
      if existing.None? {
        return FailureResult(TaskNotFound(d.taskId));
      }
      if existing.value.status != NotStarted && d.startDate != existing.value.startDate {
        return FailureResult(StartDateFrozen);
      }
      if existing.value.status == Completed && d.deadlineDate != existing.value.deadlineDate {
        return FailureResult(DeadlineFrozen);
      }
      var entity := MapToEntity(d, now);
      var _ := taskRepository.UpdateTaskAsync(entity);
      r := SuccessResult(true, TaskUpdated);
    }

    /** Always succeeds: the repository reports an absent id as false rather
        than throwing, so the not-found handler is never reached. */
    method DeleteAsync(id: int) returns (r: ResponseMessage<bool>)
      requires taskRepository.db.Valid()
      modifies taskRepository.db
      ensures taskRepository.db.nextTaskId == old(taskRepository.db.nextTaskId) && taskRepository.db.nextEmployeeId == old(taskRepository.db.nextEmployeeId)
      ensures taskRepository.db.Valid()
      ensures r == SuccessResult(true, TaskDeleted)
      ensures taskRepository.db.tasks == old(taskRepository.db.tasks) - {id}
      ensures taskRepository.db.employees == old(taskRepository.db.employees)
    {
      var _ := taskRepository.DeleteTaskAsync(id);
      r := SuccessResult(true, TaskDeleted);
    }

    /** Failure "Employee with ID {id} not found" for an unknown employee;
        otherwise success with exactly that employee's tasks in key order. */
    method GetTasksByEmployeeAsync(employeeId: int) returns (r: ResponseMessage<seq<TaskDTO>>)
      requires Shared() && taskRepository.db.Valid()
      ensures employeeId !in taskRepository.db.employees ==> r == FailureResult(EmployeeMissing(employeeId))
      ensures employeeId in taskRepository.db.employees ==>
        r == SuccessResult(MapToDTOs(AssignedTo(AllTaskRows(taskRepository.db.tasks, taskRepository.db.employees), employeeId)))
    {
      var exists_ := taskRepository.EmployeeExistsAsync(employeeId);
      if !exists_ {
        return FailureResult(EmployeeMissing(employeeId));
      }
      var entities := taskRepository.GetAllTasksAsync();
      var mine := AssignedTo(entities, employeeId);
      var mapped := MapToDTOs(mine);
      var dtos := EnrichNames(mapped, employeeRepository.db.employees);
      AllTaskRowsLoaded(taskRepository.db.tasks, taskRepository.db.employees);
      assert LoadedFrom(mine, taskRepository.db.employees) by {
        forall i | 0 <= i < |mine|
          ensures mine[i] in entities
        {
          assert mine[i] in mine;
        }
      }
      EnrichmentMatchesNavigation(mine, taskRepository.db.employees);
      assert dtos == mapped;
      r := SuccessResult(dtos);
    }

    /** Failure for a missing task; otherwise success whose Data is the
        modify permission. */
    method CanEmployeeModifyTaskAsync(employeeId: int, taskId: int) returns (r: ResponseMessage<bool>)
      ensures taskId !in taskRepository.db.tasks ==> r == FailureResult(TaskNotFound(taskId))
      ensures taskId in taskRepository.db.tasks ==>
        r == SuccessResult(CanModify(taskRepository.db.tasks[taskId], employeeId))
    {
      var task := taskRepository.GetTaskByIdAsync(taskId);
      if task.None? {
        return FailureResult(TaskNotFound(taskId));
      }
      r := SuccessResult(CanModify(task.value, employeeId));
    }
  }
}
