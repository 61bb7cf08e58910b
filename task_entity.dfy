/** The TaskStatus enumeration and the TaskEntity row with its validation
    attributes. Dates are DateTime ticks; tick 0 is default(DateTime). */
module TaskEntities {
  import opened Common
  import opened Text
  import opened Employees

  /** NotStarted = 0, Working = 1, Pending = 2, Completed = 3. */
  datatype TaskStatus = NotStarted | Working | Pending | Completed

  type Ticks = int

  const DefaultDate: Ticks := 0
  const Int32Max: int := 0x7FFF_FFFF
  const TitleMaxLength: nat := 100
  const DescriptionMaxLength: nat := 500

  /** The underlying integer of each member. */
  function StatusValue(s: TaskStatus): (v: int)
    ensures 0 <= v <= 3
  {
    match s
    case NotStarted => 0
    case Working => 1
    case Pending => 2
    case Completed => 3
  }

  /** The member with a given integer value, if there is one. */
  function StatusFromValue(v: int): Option<TaskStatus> {
    if v == 0 then Some(NotStarted)
    else if v == 1 then Some(Working)
    else if v == 2 then Some(Pending)
    else if v == 3 then Some(Completed)
    else None
  }

  /** The enum has exactly the four values 0..3, one member each. */
  lemma StatusValuesExact(v: int, s: TaskStatus)
    ensures StatusFromValue(v) == Some(s) <==> StatusValue(s) == v
    ensures StatusFromValue(v).Some? <==> 0 <= v <= 3
  {
  }

  /** Status.ToString(): the member's name. */
  function StatusName(s: TaskStatus): (name: string)
    ensures name != []
  {
    match s
    case NotStarted => "NotStarted"
    case Working => "Working"
    case Pending => "Pending"
    case Completed => "Completed"
  }

  /** One Tasks row; the two navigations hold the loaded employees, or None
      when they were not loaded. */
  datatype TaskEntity = TaskEntity(
    taskId: int,
    title: Option<string>,
    description: Option<string>,
    status: TaskStatus,
    assignedEmployeeId: int,
    reviewerId: int,
    startDate: Ticks,
    deadlineDate: Ticks,
    assignedEmployee: Option<Employee>,
    reviewer: Option<Employee>)

  /** `new TaskEntity()`: StartDate is initialised to the current UTC time;
      DeadlineDate has no initialiser and stays default; everything else is
      the default of its type. */
  function NewTaskEntity(now: Ticks): (t: TaskEntity)
    ensures t.startDate == now && t.deadlineDate == DefaultDate
    ensures t.title.None? && t.status == NotStarted
    ensures !ValidTaskEntity(t)
  {
    TaskEntity(0, None, None, NotStarted, 0, 0, now, DefaultDate, None, None)
  }

  predicate InIdRange(id: int) {
    1 <= id <= Int32Max
  }

  /** The messages the validation attributes of TaskEntity report, in
      declaration order. */
  function TaskEntityErrors(t: TaskEntity): (errors: seq<string>)
    ensures |errors| <= 5
    ensures t.title.None? ==> "Title is required." in errors
  {
    (if Required(t.title) then [] else ["Title is required."]) +
    (if WithinLength(t.title, TitleMaxLength) then []
     else ["Title can't be longer than 100 characters."]) +
    (if WithinLength(t.description, DescriptionMaxLength) then []
     else ["Description can't be longer than 500 characters."]) +
    (if InIdRange(t.assignedEmployeeId) then []
     else ["Assigned Employee Id must be a valid positive number."]) +
    (if InIdRange(t.reviewerId) then []
     else ["Reviewer Id must be a valid positive number."])
  }

  /** A task that passes model validation. */
  predicate ValidTaskEntity(t: TaskEntity) {
    && Required(t.title)
    && WithinLength(t.title, TitleMaxLength)
    && WithinLength(t.description, DescriptionMaxLength)
    && InIdRange(t.assignedEmployeeId)
    && InIdRange(t.reviewerId)
  }

  /** Validation reports nothing exactly for a valid task, whose title is
      non-null, at most 100 UTF-16 code units and not blank, whose description
      is null or at most 500 units, and whose employee ids are positive
      32-bit integers. */
  lemma ValidTaskEntityIffNoErrors(t: TaskEntity)
    ensures ValidTaskEntity(t) <==> TaskEntityErrors(t) == []
    ensures ValidTaskEntity(t) ==>
      && t.title.Some? && 0 < |t.title.value| && Utf16Length(t.title.value) <= 100
      && (t.description.Some? ==> Utf16Length(t.description.value) <= 500)
      && 1 <= t.assignedEmployeeId <= Int32Max && 1 <= t.reviewerId <= Int32Max
  {
  }

  /** The title limit counts UTF-16 code units: sixty characters outside the
      Basic Multilingual Plane (emoji, say) are 120 units and are refused,
      although the title has only sixty characters. */
  lemma AstralTitleCountsTwice(t: TaskEntity)
    requires t.title.Some? && |t.title.value| == 60
    requires forall i :: 0 <= i < 60 ==> t.title.value[i] as int > 0xFFFF
    ensures !ValidTaskEntity(t)
    ensures "Title can't be longer than 100 characters." in TaskEntityErrors(t)
  {
    assert Utf16Length(t.title.value) == 120;
  }
}
