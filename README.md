# Enterprise.EmployeeManagement — task and employee rules in Dafny

This project models the business core of an employee and task manager written
in C# (ASP.NET Core, Entity Framework) with an AngularJS page. The model covers these parts:

- **Task lifecycle.** The four-value `TaskStatus` and the status transition
  table. The server keeps the table in `TasksController`; the browser keeps a
  copy in `taskApp.js`. This part also covers the date checks on a `TaskDTO`,
  the derived completion percentage, the overdue flag and the day counts, and
  the process-wide dictionary that records when each task last changed status.
- **Task persistence.** The task repository, the two task services and the
  tasks API controller, over a store of two tables. The data-layer service
  throws exceptions; the core-layer service returns `ResponseMessage`
  envelopes. The table is a `map` inside a `Database` class. So "only these
  five fields change" and "no other row changes" are stated as plain frame
  conditions.
- **Mappers.** Task and employee conversion between entity and DTO. This
  covers null handling, defaulted dates (now, now plus seven days) and the
  role name↔enum parse, with round-trip lemmas.
- **Employees.** The employee repository and both employee services, with
  their email-uniqueness checks. Also the Redis-backed employee cache, whose
  hash is a `map` from employee id to serialized bytes.

## How values are represented

- `DateTime` is an integer count of ticks, 100 ns each; 0 is
  `default(DateTime)`. JavaScript times are integer milliseconds. The current
  time is always a parameter (`now`).
- C# `null` and JavaScript `null`/`undefined` are `Option.None`.
- A call that can throw returns `Throws<T>`: either `Return(value)` or
  `Throw(Exception(kind, message))`.
- Text that EF Core, Redis or `Enum.Parse` put into an exception is the
  single constant `FrameworkMessage`. The model keeps the exception's class
  but not its wording.
- Reads that the ORM returns in an unspecified order (`ToListAsync`,
  `HashGetAllAsync`) return rows in ascending key order (`Store.Ascending`).
- Inserting a row with key 0 lets the identity column choose the key. A
  non-zero key is inserted as given, and a key already taken fails with a
  `DbUpdateException` (`Store.InsertKey`).
- `IsEmailExistsAsync` and `GetEmployeeNameById` are called on the employee
  repository but not implemented in it. They are modelled as an exact email
  match over the table and as the `FirstName` of the row with that id.
- `Employee.Role` is declared as a string in
  `Enterprise.EmployeeManagement.DAL/Models/Employee.cs:25`, but the mapper
  and the cache parse it into `RoleType` and render it back with `ToString`.
  The model follows the mapper: `Role` is the enum `Admin | Manager |
  Employee`, the three roles the controllers authorise. `RoleType` itself is
  not part of this model's sources.
- In both task services the name-enrichment `foreach` runs over the lazy
  `Select` that `MapToDTOList` returns. Its assignments land on DTOs that the
  caller never sees, because enumerating the result again maps the rows
  afresh. The model returns the mapped rows and also models the loop
  (`TaskServicesDal.EnrichNames`). `EnrichmentMatchesNavigation` proves the two
  agree: every row was read with both navigations loaded from the same
  table, so the caller sees the same names whichever reading of the code is
  taken.
- The tasks controller carries `[ApiController]`. So an invalid body is
  answered with a validation problem before the action body runs. The model
  makes that the first step of `AddTask` and `UpdateTask`.

## Model

| member | source | states |
|---|---|---|
| Text.Trim | Enterprise.EmployeeManagement/wwwroot/js/taskApp.js:120-121 | the result neither starts nor ends with whitespace |
| Text.TrimIsSlice | Enterprise.EmployeeManagement/wwwroot/js/taskApp.js:120-121 | the result is a contiguous slice of the input, and only whitespace is cut off on either side |
| Text.TrimEmptyIffBlank | Enterprise.EmployeeManagement/wwwroot/js/taskApp.js:98 | trimming gives the empty string exactly when the input is all whitespace |
| Text.ParseIntOfHex | Enterprise.EmployeeManagement/wwwroot/js/taskApp.js:207 | parseInt with no radix reads "0x" and hexadecimal digits in base 16, and "0x" with no digit is NaN |
| Text.ParseIntOfNonNumeric | Enterprise.EmployeeManagement/wwwroot/js/taskApp.js:207 | a text starting with anything but whitespace, a sign or a digit parses to NaN |
| Text.ParseIntOfIntToString | Enterprise.EmployeeManagement/wwwroot/js/taskApp.js:123-124 | parseInt of an integer's decimal text gives the integer back |
| Text.NatToStringInjective | Enterprise.EmployeeManagement/wwwroot/js/taskApp.js:123-124 | different naturals have different decimal texts |
| Roles.ParseRoleName | Enterprise.EmployeeManagement.DAL/Repositories/EmployeeMapper.cs:24 | parsing the rendered name of a role gives the role back |
| Roles.ParseRoleOnlyNames | Enterprise.EmployeeManagement.DAL/Repositories/EmployeeMapper.cs:42 | a string parses to a role exactly when it is that role's name; any other string, and null, fails |
| Roles.RoleNameInjective | Enterprise.EmployeeManagement.DAL/Repositories/EmployeeMapper.cs:24 | different roles render as different names |
| Employees.EmployeeErrors | Enterprise.EmployeeManagement.DAL/Models/Employee.cs:15-38 | a null name, email, password or mobile number always produces a message; the minimum-length message appears exactly for a non-null password shorter than 8 UTF-16 code units |
| Employees.ValidEmployeeIffNoErrors | Enterprise.EmployeeManagement.DAL/Models/Employee.cs:15-38 | the attributes report nothing exactly for a valid employee, whose password has at least 8 UTF-16 code units |
| Text.Utf16Length | Enterprise.EmployeeManagement.DAL/Models/TaskEntity.cs:19 | .NET string length in UTF-16 code units: between the character count and twice it; equal to it when no character lies outside the Basic Multilingual Plane, twice it when every one does |
| TaskEntities.AstralTitleCountsTwice | Enterprise.EmployeeManagement.DAL/Models/TaskEntity.cs:19-20 | a title of sixty characters outside the Basic Multilingual Plane (120 code units) is refused as longer than 100 characters |
| TaskEntities.StatusValuesExact | Enterprise.EmployeeManagement.DAL/Models/TaskEntity.cs:5-11 | the enum has exactly the values 0..3, one member each, NotStarted=0 through Completed=3 |
| TaskEntities.NewTaskEntity | Enterprise.EmployeeManagement.DAL/Models/TaskEntity.cs:38-42 | a new entity starts now, has a default deadline and a null title, and so fails validation |
| TaskEntities.TaskEntityErrors | Enterprise.EmployeeManagement.DAL/Models/TaskEntity.cs:18-36 | a null title always produces "Title is required."; at most one message per attribute |
| TaskEntities.ValidTaskEntityIffNoErrors | Enterprise.EmployeeManagement.DAL/Models/TaskEntity.cs:18-36 | no message exactly for a valid task: title non-null, not empty and at most 100 UTF-16 code units, description null or at most 500 units, both employee ids in 1..int.MaxValue |
| TaskDtos.ValidateDates | Enterprise.EmployeeManagement.DAL/DTO/TaskDTO.cs:39-62 | a default start fails first, then a default deadline; with both set it throws exactly when the deadline is before the start; every failure is a ValidationException |
| TaskDtos.IsValidDateRange | Enterprise.EmployeeManagement.DAL/DTO/TaskDTO.cs:64-75 | true exactly when ValidateDates does not throw |
| TaskDtos.ValidDateRangeIff | Enterprise.EmployeeManagement.DAL/DTO/TaskDTO.cs:39-75 | a range is valid exactly when both dates are set and start <= deadline; equal dates pass |
| TaskDtos.CompletionPercentage | Enterprise.EmployeeManagement.DAL/DTO/TaskDTO.cs:29-35 | always within [0, 100]; 100 for Completed, 0 for NotStarted and for a zero-length span |
| TaskDtos.CompletionMonotone | Enterprise.EmployeeManagement.DAL/DTO/TaskDTO.cs:29-35 | for a task in progress with a proper span the percentage never decreases over time |
| TaskDtos.CompletionAtEnds | Enterprise.EmployeeManagement.DAL/DTO/TaskDTO.cs:29-35 | a task in progress is at 0 up to its start and at 100 from its deadline on |
| TaskDtos.OverdueFacts | Enterprise.EmployeeManagement.DAL/DTO/TaskDTO.cs:37 | overdue stays overdue as time passes, Completed is never overdue, and an overdue task in progress shows 100 |
| TaskDtos.DaysUntilDeadline | Enterprise.EmployeeManagement.DAL/DTO/TaskDTO.cs:27 | the whole days to the deadline, truncated toward zero on both sides of the deadline |
| TaskDtos.DaysSinceStart | Enterprise.EmployeeManagement.DAL/DTO/TaskDTO.cs:28 | the whole days since the start, truncated toward zero on both sides of the start |
| TaskDtos.StatusChangeDateIn | Enterprise.EmployeeManagement.DAL/DTO/TaskDTO.cs:80-94 | null for NotStarted and for a task with no entry, otherwise the recorded time |
| TaskDtos.DatesAfterUpdate | Enterprise.EmployeeManagement.DAL/DTO/TaskDTO.cs:96-113 | same status: dictionary unchanged; a change to another status records now; a change to NotStarted drops the entry; other tasks untouched |
| TaskDtos.StatusChangeDateAfterUpdate | Enterprise.EmployeeManagement.DAL/DTO/TaskDTO.cs:80-113 | after a real change the getter reports now (null after a move to NotStarted); a same-status update changes nothing the getter reports |
| TaskDtos.StatusChangeRegistry.constructor | Enterprise.EmployeeManagement.DAL/DTO/TaskDTO.cs:78 | the dictionary starts empty |
| TaskDtos.StatusChangeRegistry.UpdateStatus | Enterprise.EmployeeManagement.DAL/DTO/TaskDTO.cs:96-113 | the task gets the new status and the dictionary becomes DatesAfterUpdate of the old one, with no transition check |
| Responses.SuccessResult | Enterprise.EmployeeManagement.core/Common/Responses/ResponseMessage.cs:13-14 | success, the given data and message |
| Responses.FailureResult | Enterprise.EmployeeManagement.core/Common/Responses/ResponseMessage.cs:16-17 | failure, the given message, data left at default |
| Responses.FactoriesDistinct | Enterprise.EmployeeManagement.core/Common/Responses/ResponseMessage.cs:13-17 | no success envelope equals a failure envelope; the default message is "Operation successful" |
| TaskMapping.NavigationName | Enterprise.EmployeeManagement.DAL/Repositories/TaskMapper.cs:23-24 | the navigation's first name, null when the navigation is not loaded |
| TaskMapping.MapToDTO | Enterprise.EmployeeManagement.DAL/Repositories/TaskMapper.cs:11-28 | the display names come from the navigations; EmployeeName stays null |
| TaskMapping.MapToDTOOrNull | Enterprise.EmployeeManagement.DAL/Repositories/TaskMapper.cs:13 | null exactly for null, otherwise MapToDTO |
| TaskMapping.MapToEntity | Enterprise.EmployeeManagement.DAL/Repositories/TaskMapper.cs:30-45 | set dates are kept; a default start becomes now and a default deadline now plus seven days; navigations unset |
| TaskMapping.MapToEntityOrNull | Enterprise.EmployeeManagement.DAL/Repositories/TaskMapper.cs:32 | null exactly for null, otherwise MapToEntity |
| TaskMapping.MapToDTOList | Enterprise.EmployeeManagement.DAL/Repositories/TaskMapper.cs:47-50 | null for null; otherwise one DTO per entity, same length and order |
| TaskMapping.MapToDTOs | Enterprise.EmployeeManagement.DAL/Repositories/TaskMapper.cs:49 | same length, the i-th DTO maps the i-th entity |
| TaskMapping.EntityRoundTrip | Enterprise.EmployeeManagement.DAL/Repositories/TaskMapper.cs:17-43 | with both dates set, entity to DTO to entity keeps every scalar field; only navigations are lost |
| TaskMapping.DtoRoundTrip | Enterprise.EmployeeManagement.DAL/Repositories/TaskMapper.cs:17-43 | with both dates set, DTO to entity to DTO keeps every field but the three display names |
| TaskMapping.DefaultDatesGiveValidRange | Enterprise.EmployeeManagement.DAL/Repositories/TaskMapper.cs:42-43 | with both dates defaulted, and one reading of the clock, the entity spans exactly seven days, a valid range |
| EmployeeMapping.MapToDTO | Enterprise.EmployeeManagement.DAL/Repositories/EmployeeMapper.cs:12-28 | the role travels as its name |
| EmployeeMapping.MapToDTOOrNull | Enterprise.EmployeeManagement.DAL/Repositories/EmployeeMapper.cs:14-17 | null exactly for null, otherwise MapToDTO |
| EmployeeMapping.MapToEntity | Enterprise.EmployeeManagement.DAL/Repositories/EmployeeMapper.cs:30-46 | throws ArgumentException exactly when the role names no member; otherwise password and tasks are null and the id is kept |
| EmployeeMapping.MapToEntityOrNull | Enterprise.EmployeeManagement.DAL/Repositories/EmployeeMapper.cs:32-35 | null for null; otherwise throws or returns as MapToEntity |
| EmployeeMapping.EntityRoundTrip | Enterprise.EmployeeManagement.DAL/Repositories/EmployeeMapper.cs:21-44 | entity to DTO to entity keeps id, names, role, email and mobile; password and tasks come back null |
| EmployeeMapping.DtoRoundTrip | Enterprise.EmployeeManagement.DAL/Repositories/EmployeeMapper.cs:21-44 | a DTO maps exactly when its role is a member name, and then survives the round trip unchanged |
| EmployeeMapping.DtoHidesPassword | Enterprise.EmployeeManagement.DAL/Repositories/EmployeeMapper.cs:19-27 | employees differing only in password map to the same DTO |
| Store.AscendingFacts | Enterprise.EmployeeManagement.DAL/Repositories/TaskRepository.cs:24-27 | the read order lists every key exactly once, strictly increasing |
| Store.AscendingKeys | Enterprise.EmployeeManagement.DAL/Repositories/TaskRepository.cs:24-27 | the loop produces the keys in ascending order |
| Store.Lookup | Enterprise.EmployeeManagement.DAL/Repositories/EmployeeRepository.cs:36 | FindAsync: the row exactly when the key is present, else null |
| Store.Load | Enterprise.EmployeeManagement.DAL/Repositories/TaskRepository.cs:33-36 | Include loads both navigations by id and changes nothing else |
| Store.FindLoaded | Enterprise.EmployeeManagement.DAL/Repositories/TaskRepository.cs:33-36 | FirstOrDefault by key: the loaded row exactly when present |
| Store.LoadedRows | Enterprise.EmployeeManagement.DAL/Repositories/TaskRepository.cs:24-27 | one loaded row per key, in key order |
| Store.AllTaskRowsComplete | Enterprise.EmployeeManagement.DAL/Repositories/TaskRepository.cs:24-27 | reading all tasks returns each stored row exactly once, loaded, in increasing id order |
| Store.AllEmployeeRowsComplete | Enterprise.EmployeeManagement.DAL/Repositories/EmployeeRepository.cs:23 | reading all employees returns each stored row exactly once, in increasing id order |
| Store.InsertKey | Enterprise.EmployeeManagement.DAL/Repositories/TaskRepository.cs:42-43 | the insert fails with DbUpdateException exactly for a non-zero key already taken; a new key is always fresh, an explicit one kept |
| Store.Database.AddTask | Enterprise.EmployeeManagement.DAL/Repositories/TaskRepository.cs:42-43 | the stripped row goes in under InsertKey's key, or nothing changes; employees untouched |
| Store.Database.AddEmployee | Enterprise.EmployeeManagement.DAL/Repositories/EmployeeRepository.cs:49-50 | the row goes in under InsertKey's key, or nothing changes; tasks untouched |
| TaskRepositories.TasksAfterUpdate | Enterprise.EmployeeManagement.DAL/Repositories/TaskRepository.cs:51-64 | the five scalar fields of the row become the update's; key, both dates and every other row stay; an absent id changes nothing |
| TaskRepositories.TasksAfterStatus | Enterprise.EmployeeManagement.DAL/Repositories/TaskRepository.cs:96-104 | only that row's status changes, whatever the old and new status |
| TaskRepositories.UpdatesKeepKeyed | Enterprise.EmployeeManagement.DAL/Repositories/TaskRepository.cs:58-62 | both writes keep every row under its own key and without navigations |
| TaskRepositories.StatusUpdateIsUpdate | Enterprise.EmployeeManagement.DAL/Repositories/TaskRepository.cs:93-105 | a status update equals a full update that resends the stored values of the other fields |
| TaskRepositories.TaskRepository.GetAllTasksAsync | Enterprise.EmployeeManagement.DAL/Repositories/TaskRepository.cs:21-28 | every task, loaded, in key order |
| TaskRepositories.TaskRepository.GetTaskByIdAsync | Enterprise.EmployeeManagement.DAL/Repositories/TaskRepository.cs:30-37 | the loaded row with that id, or null |
| TaskRepositories.TaskRepository.AddTaskAsync | Enterprise.EmployeeManagement.DAL/Repositories/TaskRepository.cs:39-46 | inserts and returns the stored row read back by its key; a taken key throws and stores nothing |
| TaskRepositories.TaskRepository.UpdateTaskAsync | Enterprise.EmployeeManagement.DAL/Repositories/TaskRepository.cs:48-65 | true exactly when the id exists; the table becomes TasksAfterUpdate |
| TaskRepositories.TaskRepository.DeleteTaskAsync | Enterprise.EmployeeManagement.DAL/Repositories/TaskRepository.cs:67-81 | true exactly when the id exists; exactly that row is removed |
| TaskRepositories.TaskRepository.TaskExistsAsync | Enterprise.EmployeeManagement.DAL/Repositories/TaskRepository.cs:83-86 | membership of the id in the task table |
| TaskRepositories.TaskRepository.EmployeeExistsAsync | Enterprise.EmployeeManagement.DAL/Repositories/TaskRepository.cs:88-91 | membership of the id in the employee table |
| TaskRepositories.TaskRepository.UpdateTaskStatusAsync | Enterprise.EmployeeManagement.DAL/Repositories/TaskRepository.cs:93-105 | true exactly when the id exists; only the status changes, with no transition check |
| EmployeeRepositories.EmployeeNameById | Enterprise.EmployeeManagement.DAL/Services/TaskService.cs:46-47 | the first name of the row with that id, null when there is none |
| EmployeeRepositories.EmployeesAfterUpdate | Enterprise.EmployeeManagement.DAL/Repositories/EmployeeRepository.cs:59-69 | an absent id throws "Employee with ID {id} not found."; otherwise the row is overwritten with every scalar, password included, and no other row changes |
| EmployeeRepositories.UpdateKeepsKeyed | Enterprise.EmployeeManagement.DAL/Repositories/EmployeeRepository.cs:67-68 | an update keeps every row under its own key |
| EmployeeRepositories.EmployeeRepository.GetAllEmployeesAsync | Enterprise.EmployeeManagement.DAL/Repositories/EmployeeRepository.cs:19-30 | every row in key order |
| EmployeeRepositories.EmployeeRepository.GetEmployeeByIdAsync | Enterprise.EmployeeManagement.DAL/Repositories/EmployeeRepository.cs:32-43 | the row with that id, or null |
| EmployeeRepositories.EmployeeRepository.CreateEmployeeAsync | Enterprise.EmployeeManagement.DAL/Repositories/EmployeeRepository.cs:45-57 | adds exactly one row; a refused insert is rethrown as "Error creating employee." and stores nothing |
| EmployeeRepositories.EmployeeRepository.UpdateEmployeeAsync | Enterprise.EmployeeManagement.DAL/Repositories/EmployeeRepository.cs:59-69 | the table becomes EmployeesAfterUpdate, or the not-found exception and no change |
| EmployeeRepositories.EmployeeRepository.DeleteEmployeeAsync | Enterprise.EmployeeManagement.DAL/Repositories/EmployeeRepository.cs:73-84 | true exactly when the id exists; exactly that row is removed |
| TaskServicesDal.UpdateRejection | Enterprise.EmployeeManagement.DAL/Services/TaskService.cs:75-99 | the update goes on to write exactly when the dates are valid, the task exists and neither the start date nor the deadline is locked |
| TaskServicesDal.UpdateGuardOrder | Enterprise.EmployeeManagement.DAL/Services/TaskService.cs:78-99 | dates, then not found, then the frozen start date, then the frozen deadline; each reports only when the earlier ones pass |
| TaskServicesDal.CompletedKeepsDates | Enterprise.EmployeeManagement.DAL/Services/TaskService.cs:88-99 | an update of a Completed task is accepted only when it resends both stored dates |
| TaskServicesDal.DateEditsIgnored | Enterprise.EmployeeManagement.DAL/Services/TaskService.cs:101-102 | what an update writes does not depend on the dates sent; the stored start date stays |
| TaskServicesDal.WithLookedUpNames | Enterprise.EmployeeManagement.DAL/Services/TaskService.cs:46-47 | both display names are looked up by id; nothing else changes |
| TaskServicesDal.EnrichNames | Enterprise.EmployeeManagement.DAL/Services/TaskService.cs:44-49 | the loop enriches every DTO, in place and in order |
| TaskServicesDal.EnrichmentMatchesNavigation | Enterprise.EmployeeManagement.DAL/Services/TaskService.cs:41-49 | for rows loaded from the table, enrichment changes nothing in the mapped DTOs |
| TaskServicesDal.AllTaskRowsLoaded | Enterprise.EmployeeManagement.DAL/Services/TaskService.cs:41 | every row of a full read carries the navigations of the employee table |
| TaskServicesDal.AssignedTo | Enterprise.EmployeeManagement.DAL/Services/TaskService.cs:119 | a row is kept exactly when it is in the input and assigned to that employee |
| TaskServicesDal.AssignedToKeepsOrder | Enterprise.EmployeeManagement.DAL/Services/TaskService.cs:118-119 | the filter keeps the repository's increasing id order |
| TaskServicesDal.CanModifyFacts | Enterprise.EmployeeManagement.DAL/Services/TaskService.cs:136-139 | nobody may modify a Completed task, nor a task they neither do nor review; the assignee may modify an open one |
| TaskServicesDal.TaskService.GetByIdAsync | Enterprise.EmployeeManagement.DAL/Services/TaskService.cs:24-35 | KeyNotFoundException "Task with ID {id} not found" for an absent id, else the mapped loaded row |
| TaskServicesDal.TaskService.GetAllAsync | Enterprise.EmployeeManagement.DAL/Services/TaskService.cs:39-52 | one DTO per task in key order, whose names are those of the employees with the task's ids |
| TaskServicesDal.TaskService.CreateAsync | Enterprise.EmployeeManagement.DAL/Services/TaskService.cs:54-73 | the dates are checked before any write; then the mapped DTO is inserted and returned with names |
| TaskServicesDal.TaskService.UpdateAsync | Enterprise.EmployeeManagement.DAL/Services/TaskService.cs:75-103 | throws UpdateRejection's exception and writes nothing, or writes TasksAfterUpdate of the mapped DTO |
| TaskServicesDal.TaskService.DeleteAsync | Enterprise.EmployeeManagement.DAL/Services/TaskService.cs:105-108 | removes the row if present; an absent id is no error |
| TaskServicesDal.TaskService.GetTasksByEmployeeAsync | Enterprise.EmployeeManagement.DAL/Services/TaskService.cs:110-131 | KeyNotFoundException for an unknown employee, else exactly that employee's tasks in key order |
| TaskServicesDal.TaskService.CanEmployeeModifyTaskAsync | Enterprise.EmployeeManagement.DAL/Services/TaskService.cs:133-140 | false for a missing task, else assignee-or-reviewer and not Completed |
| TaskServicesCore.CreateFailure | Enterprise.EmployeeManagement.core/Services/TaskService.cs:81-88 | a ValidationException, and only it, is reported with the "Validation error: " prefix |
| TaskServicesCore.UpdateResponse | Enterprise.EmployeeManagement.core/Services/TaskService.cs:91-126 | success exactly when the data-layer guard chain passes; date failures carry the validation prefix, the others their own message |
| TaskServicesCore.UpdateResponseFacts | Enterprise.EmployeeManagement.core/Services/TaskService.cs:103-111 | a NotStarted task accepts any valid dates; a task in any other status refuses a new start date; a Completed task resending its start date refuses a new deadline |
| TaskServicesCore.TaskService.GetByIdAsync | Enterprise.EmployeeManagement.core/Services/TaskService.cs:26-43 | failure "Task with ID {id} not found", or success with the mapped row |
| TaskServicesCore.TaskService.GetAllAsync | Enterprise.EmployeeManagement.core/Services/TaskService.cs:45-64 | success with one DTO per task, names from the employee lookup |
| TaskServicesCore.TaskService.CreateAsync | Enterprise.EmployeeManagement.core/Services/TaskService.cs:66-89 | a date failure is a validation failure and writes nothing; otherwise insert and "Task created successfully" |
| TaskServicesCore.TaskService.UpdateAsync | Enterprise.EmployeeManagement.core/Services/TaskService.cs:91-126 | the envelope is UpdateResponse; only a success writes, exactly TasksAfterUpdate |
| TaskServicesCore.TaskService.DeleteAsync | Enterprise.EmployeeManagement.core/Services/TaskService.cs:128-143 | always "Task deleted successfully"; the row is removed if present |
| TaskServicesCore.TaskService.GetTasksByEmployeeAsync | Enterprise.EmployeeManagement.core/Services/TaskService.cs:145-170 | failure "Employee with ID {id} not found", or exactly that employee's tasks in key order |
| TaskServicesCore.TaskService.CanEmployeeModifyTaskAsync | Enterprise.EmployeeManagement.core/Services/TaskService.cs:172-191 | failure for a missing task, else success whose data is assignee-or-reviewer and not Completed |
| EmployeeServicesDal.MapEmployees | Enterprise.EmployeeManagement.DAL/Services/EmployeeService.cs:26 | one DTO per row, same order |
| EmployeeServicesDal.CreateOutcome | Enterprise.EmployeeManagement.DAL/Services/EmployeeService.cs:35-44 | a stored email throws the duplicate error first, then a bad role, then "Error creating employee." for a non-zero id already taken; success adds exactly the mapped entity under a fresh key (its own id when non-zero) and keeps the other rows |
| EmployeeServicesDal.UpdateOutcome | Enterprise.EmployeeManagement.DAL/Services/EmployeeService.cs:46-61 | absent id throws not found; a changed email already stored throws duplicate; success replaces row dto.Id with the mapped DTO |
| EmployeeServicesDal.CreateKeepsEmailsUnique | Enterprise.EmployeeManagement.DAL/Services/EmployeeService.cs:37-43 | a successful create keeps emails unique |
| EmployeeServicesDal.UpdateKeepsEmailsUnique | Enterprise.EmployeeManagement.DAL/Services/EmployeeService.cs:54-60 | an update whose DTO id is the checked id keeps emails unique |
| EmployeeServicesDal.UpdateOfOtherRowDuplicatesEmail | Enterprise.EmployeeManagement.DAL/Services/EmployeeService.cs:48-60 | with the schema's NOT NULL columns left aside, checking row id but writing row dto.Id can give two employees the same email (concrete case) |
| EmployeeServicesDal.UpdateErasesPassword | Enterprise.EmployeeManagement.DAL/Services/EmployeeService.cs:59-60 | with the schema's NOT NULL columns left aside, an update that gets past the service's checks writes a null password, so the row no longer validates |
| EmployeeServicesDal.NotFoundIsNotDuplicate | Enterprise.EmployeeManagement.DAL/Services/EmployeeService.cs:51-56 | the not-found and duplicate exceptions are different |
| EmployeeServicesDal.UnchangedEmailSkipsCheck | Enterprise.EmployeeManagement.DAL/Services/EmployeeService.cs:54-57 | resending the stored email never fails as duplicate; a changed one fails exactly when stored |
| EmployeeServicesDal.EmployeeService.GetAllEmployeesAsync | Enterprise.EmployeeManagement.DAL/Services/EmployeeService.cs:23-27 | every employee as a DTO, in key order |
| EmployeeServicesDal.EmployeeService.GetEmployeeByIdAsync | Enterprise.EmployeeManagement.DAL/Services/EmployeeService.cs:29-33 | the DTO of the row, or null |
| EmployeeServicesDal.EmployeeService.CreateEmployeeAsync | Enterprise.EmployeeManagement.DAL/Services/EmployeeService.cs:35-44 | throws or writes exactly as CreateOutcome |
| EmployeeServicesDal.EmployeeService.UpdateEmployeeAsync | Enterprise.EmployeeManagement.DAL/Services/EmployeeService.cs:46-61 | throws or writes exactly as UpdateOutcome |
| EmployeeServicesDal.EmployeeService.DeleteEmployeeAsync | Enterprise.EmployeeManagement.DAL/Services/EmployeeService.cs:63-66 | the repository's result; exactly that row is removed |
| EmployeeServicesCore.Refused | Enterprise.EmployeeManagement.core/Services/EmployeeService.cs:42 | failure with the message and no data |
| EmployeeServicesCore.CreateResponse | Enterprise.EmployeeManagement.core/Services/EmployeeService.cs:38-48 | duplicate email is a refusal; success exactly when CreateOutcome succeeds; other exceptions propagate |
| EmployeeServicesCore.UpdateResponse | Enterprise.EmployeeManagement.core/Services/EmployeeService.cs:50-68 | absent id and duplicate email are refusals; success exactly when UpdateOutcome succeeds; any exception is UpdateOutcome's |
| EmployeeServicesCore.NotFoundMessageIgnoresId | Enterprise.EmployeeManagement.core/Services/EmployeeService.cs:56 | every absent id gets the same message, which contains the literal "{id}" |
| EmployeeServicesCore.EmployeeService.GetAllEmployeesAsync | Enterprise.EmployeeManagement.core/Services/EmployeeService.cs:26-30 | every employee as a DTO, in key order |
| EmployeeServicesCore.EmployeeService.GetEmployeeByIdAsync | Enterprise.EmployeeManagement.core/Services/EmployeeService.cs:32-36 | the DTO of the row, or null for a missing id |
| EmployeeServicesCore.EmployeeService.CreateEmployeeAsync | Enterprise.EmployeeManagement.core/Services/EmployeeService.cs:38-48 | the result is CreateResponse; the table changes only on success, as CreateOutcome |
| EmployeeServicesCore.EmployeeService.UpdateEmployeeAsync | Enterprise.EmployeeManagement.core/Services/EmployeeService.cs:50-68 | the result is UpdateResponse; the table changes only on success, as UpdateOutcome |
| EmployeeServicesCore.EmployeeService.DeleteEmployeeAsync | Enterprise.EmployeeManagement.core/Services/EmployeeService.cs:70-73 | the repository's result; exactly that row is removed |
| EmployeeCaches.FromDto | Enterprise.EmployeeManagement.DAL/Services/EmployeeCacheService.cs:28-40 | throws exactly for a role that is no member; otherwise same id, empty task list, null password |
| EmployeeCaches.Fetch | Enterprise.EmployeeManagement.DAL/Services/EmployeeCacheService.cs:47-53 | null on a miss, otherwise the decoded field |
| EmployeeCaches.FetchAfterStore | Enterprise.EmployeeManagement.DAL/Services/EmployeeCacheService.cs:97-105 | with a faithful serializer a stored employee reads back; other fields read as before |
| EmployeeCaches.DecodeEntry | Enterprise.EmployeeManagement.DAL/Services/EmployeeCacheService.cs:75-85 | an entry yields its employee exactly when it decodes and its role parses, else it is skipped |
| EmployeeCaches.DecodeAll | Enterprise.EmployeeManagement.DAL/Services/EmployeeCacheService.cs:72-88 | at most one employee per entry, each with an empty task list and a null password |
| EmployeeCaches.DecodeCached | Enterprise.EmployeeManagement.DAL/Services/EmployeeCacheService.cs:67-88 | no more employees than hash fields |
| EmployeeCaches.DecodeAllComplete | Enterprise.EmployeeManagement.DAL/Services/EmployeeCacheService.cs:72-88 | when every entry decodes with a known role, nothing is skipped and order is kept |
| EmployeeCaches.StaleIds | Enterprise.EmployeeManagement.DAL/Services/EmployeeCacheService.cs:150-152 | exactly the ids of decoded employees that are not in the new list |
| EmployeeCaches.PruneFacts | Enterprise.EmployeeManagement.DAL/Services/EmployeeCacheService.cs:147-159 | pruning adds nothing, keeps every listed id with its bytes, and keeps fields no decoded employee names |
| EmployeeCaches.PruneExact | Enterprise.EmployeeManagement.DAL/Services/EmployeeCacheService.cs:147-159 | on a well-formed hash pruning removes exactly the unlisted ids |
| EmployeeCaches.EmployeeCacheService.constructor | Enterprise.EmployeeManagement.DAL/Services/EmployeeCacheService.cs:20-26 | an empty hash with no expiry |
| EmployeeCaches.EmployeeCacheService.GetEmployeeAsync | Enterprise.EmployeeManagement.DAL/Services/EmployeeCacheService.cs:42-60 | Fetch when reachable; null when the backend fails |
| EmployeeCaches.EmployeeCacheService.GetAllEmployeesAsync | Enterprise.EmployeeManagement.DAL/Services/EmployeeCacheService.cs:62-95 | the loop yields DecodeCached when reachable, empty when the backend fails |
| EmployeeCaches.EmployeeCacheService.SetEmployeeAsync | Enterprise.EmployeeManagement.DAL/Services/EmployeeCacheService.cs:97-112 | stores the encoded employee under its id and resets the hash's expiry to now plus 24 hours; rethrows backend failure with no change |
| EmployeeCaches.EmployeeCacheService.RemoveEmployeeAsync | Enterprise.EmployeeManagement.DAL/Services/EmployeeCacheService.cs:114-126 | deletes that field only; rethrows backend failure with no change |
| EmployeeCaches.EmployeeCacheService.InvalidateEmployeeListCache | Enterprise.EmployeeManagement.DAL/Services/EmployeeCacheService.cs:128-140 | deletes the whole hash and its expiry; rethrows backend failure with no change |
| EmployeeCaches.EmployeeCacheService.UpdateEmployeeListAsync | Enterprise.EmployeeManagement.DAL/Services/EmployeeCacheService.cs:142-168 | removes the stale ids and resets the expiry; throws with no change when the backend fails |
| TasksControllers.TransitionTableExact | Enterprise.EmployeeManagement/Controllers/Api/TasksController.cs:195-211 | the table allows exactly five moves: NotStarted to Working, Working to Pending or Completed, Pending to Working or Completed |
| TasksControllers.TransitionConsequences | Enterprise.EmployeeManagement/Controllers/Api/TasksController.cs:195-211 | no self move, nothing into NotStarted, Completed is terminal, Completed is reachable |
| TasksControllers.ValidTransitionRecordsTime | Enterprise.EmployeeManagement/Controllers/Api/TasksController.cs:195-211 | every move the table allows changes the status, so UpdateStatus applied with that move records now |
| TasksControllers.EnumText | Enterprise.EmployeeManagement/Controllers/Api/TasksController.cs:180 | a member value renders as the member's name |
| TasksControllers.IsValidRawTransition | Enterprise.EmployeeManagement/Controllers/Api/TasksController.cs:163-177 | a raw status value is accepted exactly when it is a member the table allows |
| TasksControllers.TasksController.GetTasks | Enterprise.EmployeeManagement/Controllers/Api/TasksController.cs:28-43 | NotFound for an empty table, otherwise every loaded task |
| TasksControllers.TasksController.AddTask | Enterprise.EmployeeManagement/Controllers/Api/TasksController.cs:48-86 | validation, then employee existence, then the insert; every refusal writes nothing; success returns the stored loaded row |
| TasksControllers.TasksController.UpdateTask | Enterprise.EmployeeManagement/Controllers/Api/TasksController.cs:90-139 | validation, then id mismatch, then employee existence, then not found; only NoContent writes, exactly TasksAfterUpdate |
| TasksControllers.TasksController.DeleteTask | Enterprise.EmployeeManagement/Controllers/Api/TasksController.cs:144-159 | NotFound for an absent id, else NoContent; exactly that row is removed |
| TasksControllers.TasksController.UpdateTaskStatus | Enterprise.EmployeeManagement/Controllers/Api/TasksController.cs:163-193 | NotFound, or BadRequest naming both statuses for a refused move, both with no change; else only the status changes |
| TasksControllers.AcceptedStatusUpdate | Enterprise.EmployeeManagement/Controllers/Api/TasksController.cs:177-183 | an accepted move never leaves Completed, never enters NotStarted and always changes the status |
| TaskApp.JsParseInt | Enterprise.EmployeeManagement/wwwroot/js/taskApp.js:123-124 | a number parses back to itself; undefined, null and the booleans give NaN |
| TaskApp.JsParseIntFacts | Enterprise.EmployeeManagement/wwwroot/js/taskApp.js:123-124 | parseInt reads back an integer and its text; null, undefined and booleans give NaN |
| TaskApp.GetStatusText | Enterprise.EmployeeManagement/wwwroot/js/taskApp.js:268-276 | "Unknown" exactly when the value does not parse to 0..3; otherwise the member's server name, with NotStarted read as "Not Started" |
| TaskApp.StatusLabelFacts | Enterprise.EmployeeManagement/wwwroot/js/taskApp.js:269-275 | the switch gives "Unknown" exactly off the members' values, and each member's label on its value |
| TaskApp.StatusTextMatchesServer | Enterprise.EmployeeManagement/wwwroot/js/taskApp.js:268-276 | each member's label is its server name, except "Not Started"; other values are "Unknown"; a value and its text get the same label |
| TaskApp.HexStatusText | Enterprise.EmployeeManagement/wwwroot/js/taskApp.js:268-276 | a hexadecimal status text is labelled by its base-16 value, so "0x3" reads as Completed |
| TaskApp.IsValidTransition | Enterprise.EmployeeManagement/wwwroot/js/taskApp.js:221-239 | true exactly when a task is selected, both statuses parse, the current one is a member's value and the controller's table accepts the new value |
| TaskApp.ClientTableOnParsed | Enterprise.EmployeeManagement/wwwroot/js/taskApp.js:227-238 | the switch accepts exactly the parsed pairs the controller's table accepts |
| TaskApp.ClientTableOnValues | Enterprise.EmployeeManagement/wwwroot/js/taskApp.js:227-238 | on parsed values the client switch is the server table |
| TaskApp.ClientTableMatchesServer | Enterprise.EmployeeManagement/wwwroot/js/taskApp.js:221-239 | for a task in a member status, the client accepts a new value, number or text, exactly when the controller does |
| TaskApp.ClientTableRefusesUnknown | Enterprise.EmployeeManagement/wwwroot/js/taskApp.js:221-239 | nothing is accepted with no task selected or a current status outside 0..3 |
| TaskApp.ValidateTask | Enterprise.EmployeeManagement/wwwroot/js/taskApp.js:97-111 | passes exactly for a non-blank title and truthy assignee and reviewer; otherwise the first failing check's alert |
| TaskApp.SaveRequest | Enterprise.EmployeeManagement/wwwroot/js/taskApp.js:113-132 | a request exactly when validation passes, carrying the form's task id, a non-empty title and the parsed ids; POST exactly for id 0 |
| TaskApp.SaveRequestFacts | Enterprise.EmployeeManagement/wwwroot/js/taskApp.js:113-132 | a request exactly when validation passes; POST to /api/Tasks exactly for id 0, else PUT to a URL whose id reads back; the title is trimmed and not empty |
| TaskApp.ResetFormIsRefused | Enterprise.EmployeeManagement/wwwroot/js/taskApp.js:60-71 | a reset form fails on its title and sends nothing |
| TaskApp.EditForm | Enterprise.EmployeeManagement/wwwroot/js/taskApp.js:168-177 | keeps the row's id, title and completion; the description is never null; the ids become non-empty strings that parse back to the row's ids |
| TaskApp.EditThenSave | Enterprise.EmployeeManagement/wwwroot/js/taskApp.js:168-177 | an edited row with a non-blank title, whatever its ids, is saved by PUT (POST for id 0) carrying its own ids |
| TaskApp.GetDaysInStatus | Enterprise.EmployeeManagement/wwwroot/js/taskApp.js:278-292 | 0 without a parseable date; otherwise the least whole number of days covering the distance |
| TaskApp.DaysInStatusFacts | Enterprise.EmployeeManagement/wwwroot/js/taskApp.js:278-292 | 0 exactly at the change instant; one day away counts as 1 |
| TaskApp.TaskScope.constructor | Enterprise.EmployeeManagement/wwwroot/js/taskApp.js:37-45 | the initial scope: no selection, no new status, no error, and a reset form titled for adding |
| TaskApp.TaskScope.ResetForm | Enterprise.EmployeeManagement/wwwroot/js/taskApp.js:60-71 | the empty form with id 0 and the add titles; nothing else changes |
| TaskApp.TaskScope.EditTask | Enterprise.EmployeeManagement/wwwroot/js/taskApp.js:168-183 | the row's fields with ids as text and the edit titles; nothing else changes |
| TaskApp.TaskScope.PrepareStatusUpdate | Enterprise.EmployeeManagement/wwwroot/js/taskApp.js:54-58 | selects the row, preselects its status and clears the error; the form is untouched |
| TaskApp.TaskScope.StatusRequest | Enterprise.EmployeeManagement/wwwroot/js/taskApp.js:241-247 | a PATCH exactly when a task is selected and the new status is truthy, so the number 0 is never sent (the string "0" is) |
| TaskApp.PreselectedStatusIsRefused | Enterprise.EmployeeManagement/wwwroot/js/taskApp.js:54-58 | the status preselected by prepareStatusUpdate is never a valid transition |

## Left out

- EmployeeServicesDal.CreateOutcome, EmployeeServicesDal.UpdateOutcome, EmployeeServicesCore.CreateResponse, EmployeeServicesCore.UpdateResponse: these model the code as written, with the schema abstracted. The mapper never sets `Password`, but the migration makes that column NOT NULL (`IsRequired()`). So the real database refuses every service-level create, which ends in "Error creating employee.". It also refuses every service-level update, whose `DbUpdateException` from `SaveChanges` is not caught. The success branches, and the lemmas built on them (`UpdateOfOtherRowDuplicatesEmail`, `UpdateErasesPassword`, `CreateKeepsEmailsUnique`, `UpdateKeepsEmailsUnique`), describe the service logic, not what that database accepts.
- TaskMapping.DefaultDatesGiveValidRange: `MapToEntity` reads the clock once, as one `now`. The source reads `DateTime.UtcNow` twice, so its defaulted span is at least seven days, not exactly seven.
- TasksControllers.ValidTransitionRecordsTime: nothing in the program calls `TaskDTO.UpdateStatus`. `UpdateTaskStatus` assigns the entity's status directly, so the status-change dictionary is never filled, and the lemma states what `UpdateStatus` would do.
- Foreign keys, NOT NULL columns and cascade deletes of the schema are not modelled. The store is two maps, so deleting an employee leaves tasks that name it, and loading them gives null navigations. Column defaults are not modelled either: `StartDate` defaults to `CURRENT_TIMESTAMP` and is generated on add (`AppDbContext.cs:27-29`), so a task inserted with a default start date is stored with the database's time, where the model stores the value sent.
- Concurrency: async scheduling, races between requests, and the thread-unsafety of the static status-change dictionary. Everything is single-threaded.
- Logging, SMTP mail, the account and home controllers, startup wiring and the Razor views are left out.
- The AngularJS `$http` callbacks, modals, `setTimeout`, `alert`, `confirm`, `console` and the `customDate` filter are left out. So are `loadData`, `loadTasks` and `deleteTask`, which only issue requests.
- The scope assignments made after a save or status update succeeds are left out (`successMessage`, `statusChangeDate`, the new status on the selected row).
- getStatusText is defined twice in taskApp.js, at lines 206-219 and 268-276. The bodies are the same, and the second assignment replaces the first, so the model has one `TaskApp.GetStatusText`.
- TaskApp.GetDaysInStatus: does not model parsing the ISO date string. The change date arrives already parsed or marked unparseable, and NaN is not a JavaScript number in the model.
- TaskApp.JsParseIntFacts: JavaScript numbers are integers in the model. Fractions, exponents, NaN and Infinity are not modelled.
- TaskDtos.CompletionPercentage: computed over exact reals, not `decimal` or `double` `TotalDays`. Only the case split, the clamp and monotonicity are stated; exact decimal values are not.
- Integer overflow: ids and tick arithmetic are unbounded. The 1..int.MaxValue validation ranges are modelled, but 32-bit wrap-around is not.
- Whitespace: `[Required]`, `trim` and the leading whitespace `parseInt` skips recognise only the ASCII whitespace characters, not the full Unicode set.
- Text.ParseInt, TaskApp.JsParseInt: the model reads the `0x` prefix the way a radix-less `parseInt` does. It leaves out the legacy octal forms, which modern engines do not apply, and non-ASCII leading whitespace.
- Role parsing accepts only the exact member names. `Enum.Parse` also accepts numeric strings and surrounding whitespace; these are not modelled.
- Serializer details: ZeroFormatter is an abstract encode/decode pair. The model does not claim that GetAllEmployeesAsync returns what SetEmployeeAsync stored, because one writes `Employee` and the other reads `EmployeeDTO`.
- Redis: expiry is recorded as an instant but never acts. Keys do not vanish as time passes. Hash fields are integer ids rather than their decimal text.
- Request binding and framework behaviour are left out: JSON deserialisation, the `[Authorize]` role checks and the exact ModelState error format. Validation errors of navigation properties sent in a body are also left out.
- The `catch` branches that cannot be reached in the model are left out. This covers database failures on reads and saves other than inserts (`Error updating task: ...`, `Error retrieving ...`) and Redis failures inside a read. The cache backend's failure is the one fault that is modelled.
- An insert failure keeps the exception's class but not EF's message text; see `FrameworkMessage`.
- `ITaskRepository` declares `Task` results where `TaskRepository` returns `Task<bool>`. The model follows the implementation.
- Identity counters: methods that wrap an insert state the new table but not the new counter value. The counter is stated only by `Store.Database.AddTask` and `Store.Database.AddEmployee`.
