/** TaskRepository: the task table operations, over the store. */
module TaskRepositories {
  import opened Common
  import opened Employees
  import opened TaskEntities
  import opened Store

  /** The tracked row after UpdateTaskAsync assigned the five scalar fields
      of `update` to it. */
  function CopyScalars(existing: TaskEntity, update: TaskEntity): TaskEntity {
    existing.(title := update.title, description := update.description, status := update.status,
              assignedEmployeeId := update.assignedEmployeeId, reviewerId := update.reviewerId)
  }

  /** The table after UpdateTaskAsync(update): when the key is present, its
      Title, Description, Status, AssignedEmployeeId and ReviewerId become
      those of `update`; the key, both dates and every other row stay as
      they were. */
  function TasksAfterUpdate(tasks: map<int, TaskEntity>, update: TaskEntity): (r: map<int, TaskEntity>)
    ensures r.Keys == tasks.Keys
    ensures forall id :: id in tasks && id != update.taskId ==> r[id] == tasks[id]
    ensures forall id :: id in tasks ==>
      && r[id].taskId == tasks[id].taskId
      && r[id].startDate == tasks[id].startDate
      && r[id].deadlineDate == tasks[id].deadlineDate
    ensures update.taskId in tasks ==>
      var t := r[update.taskId];
      && t.title == update.title && t.description == update.description && t.status == update.status
      && t.assignedEmployeeId == update.assignedEmployeeId && t.reviewerId == update.reviewerId
  {
    if update.taskId in tasks then tasks[update.taskId := CopyScalars(tasks[update.taskId], update)]
    else tasks
  }

  /** The table after UpdateTaskStatusAsync(id, status): only the Status of
      that row changes, whatever the old and new status are. */
  function TasksAfterStatus(tasks: map<int, TaskEntity>, id: int, status: TaskStatus): (r: map<int, TaskEntity>)
    ensures r.Keys == tasks.Keys
    ensures forall k :: k in tasks && k != id ==> r[k] == tasks[k]
    ensures id in tasks ==> r[id].status == status && r[id].(status := tasks[id].status) == tasks[id]
  {
    if id in tasks then tasks[id := tasks[id].(status := status)] else tasks
  }

  /** Both updates keep every row under its own key and free of
      navigations. */
  lemma UpdatesKeepKeyed(tasks: map<int, TaskEntity>, update: TaskEntity, id: int, status: TaskStatus)
    requires TasksKeyed(tasks)
    ensures TasksKeyed(TasksAfterUpdate(tasks, update))
    ensures TasksKeyed(TasksAfterStatus(tasks, id, status))
  {
  }

  /** An update carrying the stored status is a status update to that
      status, and a status update is an update that copies the stored values
      of the four other fields: the two writes agree where they overlap. */
  lemma StatusUpdateIsUpdate(tasks: map<int, TaskEntity>, id: int, status: TaskStatus)
    requires id in tasks
    ensures TasksAfterStatus(tasks, id, status) ==
      TasksAfterUpdate(tasks, tasks[id].(taskId := id, status := status))
  {
  }

  class TaskRepository {
    const db: Database

    constructor(db: Database)
      ensures this.db == db
    {
      this.db := db;
    }

    /** Every task with both navigations loaded, in key order. */
    method GetAllTasksAsync() returns (rows: seq<TaskEntity>)
      requires db.Valid()
      ensures rows == AllTaskRows(db.tasks, db.employees)
    {
      var keys := AscendingKeys(db.tasks.Keys);
      AscendingFacts(db.tasks.Keys);
      rows := LoadedRows(db.tasks, db.employees, keys);
    }

    /** The task with that id, both navigations loaded, or null. */
    method GetTaskByIdAsync(id: int) returns (t: Option<TaskEntity>)
      ensures t == FindLoaded(db.tasks, db.employees, id)
    {
      t := FindLoaded(db.tasks, db.employees, id);
    }

    /** Inserts the task and reads the stored row back. A duplicate explicit
        key throws and stores nothing. */
    method AddTaskAsync(task: TaskEntity) returns (r: Throws<TaskEntity>)
      requires db.Valid()
      modifies db
      ensures db.Valid()
      ensures db.employees == old(db.employees)
      ensures match InsertKey(old(db.tasks).Keys, old(db.nextTaskId), task.taskId)
        case Throw(e) => r == Throw(e) && db.tasks == old(db.tasks)
        case Return(k) =>
          && db.tasks == old(db.tasks)[k := StripTask(task).(taskId := k)]
          && r == Return(Load(db.tasks[k], db.employees))
    {
      var key := db.AddTask(task);
      match key
      case Throw(e) =>
        r := Throw(e);
      case Return(k) =>
        var stored := GetTaskByIdAsync(k);
        r := Return(stored.value);
    }

    /** Copies the five scalar fields onto the stored row; false, and no
        change, when the id is absent. */
    method UpdateTaskAsync(task: TaskEntity) returns (ok: bool)
      requires db.Valid()
      modifies db
      ensures db.nextTaskId == old(db.nextTaskId) && db.nextEmployeeId == old(db.nextEmployeeId)
      ensures db.Valid()
      ensures ok <==> task.taskId in old(db.tasks)
      ensures db.tasks == TasksAfterUpdate(old(db.tasks), task)
      ensures db.employees == old(db.employees)
    {
      if task.taskId !in db.tasks {
        return false;
      }
      UpdatesKeepKeyed(db.tasks, task, task.taskId, task.status);
      db.tasks := TasksAfterUpdate(db.tasks, task);
      ok := true;
    }

    /** Removes the row; false, and no change, when the id is absent. */
    method DeleteTaskAsync(id: int) returns (ok: bool)
      requires db.Valid()
      modifies db
      ensures db.nextTaskId == old(db.nextTaskId) && db.nextEmployeeId == old(db.nextEmployeeId)
      ensures db.Valid()
      ensures ok <==> id in old(db.tasks)
      ensures db.tasks == old(db.tasks) - {id}
      ensures db.employees == old(db.employees)
    {
      if id !in db.tasks {
        return false;
      }
      db.tasks := db.tasks - {id};
      ok := true;
    }

    /** Whether some row has that TaskId. */
    method TaskExistsAsync(id: int) returns (b: bool)
      requires db.Valid()
      ensures b <==> id in db.tasks
    {
      b := exists k :: k in db.tasks && db.tasks[k].taskId == id;
    }

    /** Whether some employee row has that Id. */
    method EmployeeExistsAsync(id: int) returns (b: bool)
      requires db.Valid()
      ensures b <==> id in db.employees
    {
      b := exists k :: k in db.employees && db.employees[k].id == id;
    }

    /** Sets the Status of the row, with no transition check; false, and no
        change, when the id is absent. */
    method UpdateTaskStatusAsync(id: int, status: TaskStatus) returns (ok: bool)
      requires db.Valid()
      modifies db
      ensures db.nextTaskId == old(db.nextTaskId) && db.nextEmployeeId == old(db.nextEmployeeId)
      ensures db.Valid()
      ensures ok <==> id in old(db.tasks)
      ensures db.tasks == TasksAfterStatus(old(db.tasks), id, status)
      ensures db.employees == old(db.employees)
    {
      if id !in db.tasks {
        return false;
      }
      UpdatesKeepKeyed(db.tasks, db.tasks[id], id, status);
      db.tasks := TasksAfterStatus(db.tasks, id, status);
      ok := true;
    }
  }
}
