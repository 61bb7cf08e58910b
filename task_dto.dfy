/** TaskDTO and the task lifecycle rules it carries: date validation, the
    derived completion percentage, overdue flag and day counts, and the
    process-wide map from task id to the time of its last status change. */
module TaskDtos {
  import opened Common
  import opened TaskEntities

  /** TimeSpan.TicksPerDay. */
  const TicksPerDay: int := 864_000_000_000

  datatype TaskDTO = TaskDTO(
    taskId: int,
    title: Option<string>,
    description: Option<string>,
    status: TaskStatus,
    assignedEmployeeId: int,
    reviewerId: int,
    assignedEmployeeName: Option<string>,
    reviewerName: Option<string>,
    employeeName: Option<string>,
    startDate: Ticks,
    deadlineDate: Ticks)

  function StatusDisplayName(t: TaskDTO): string {
    StatusName(t.status)
  }

  const StartDateMissing: string := "Start date must be set"
  const DeadlineMissing: string := "Deadline date must be set"
  const DeadlineBeforeStart: string := "Deadline date cannot be earlier than start date"

  /** ValidateDates: returns normally, or throws a ValidationException whose
      message names the first failed check (start set, deadline set,
      deadline not before start). */
  function ValidateDates(t: TaskDTO): (r: Throws<()>)
    ensures r.Throw? ==> r.error.kind == ValidationException
    ensures t.startDate == DefaultDate ==> r == Throw(Exception(ValidationException, StartDateMissing))
    ensures t.startDate != DefaultDate && t.deadlineDate == DefaultDate ==>
      r == Throw(Exception(ValidationException, DeadlineMissing))
    ensures t.startDate != DefaultDate && t.deadlineDate != DefaultDate ==>
      (r.Throw? <==> t.deadlineDate < t.startDate) &&
      (r.Throw? ==> r.error.message == DeadlineBeforeStart)
  {
    if t.startDate == DefaultDate then
      Throw(Exception(ValidationException, StartDateMissing))
    else if t.deadlineDate == DefaultDate then
      Throw(Exception(ValidationException, DeadlineMissing))
    else if t.deadlineDate < t.startDate then
      Throw(Exception(ValidationException, DeadlineBeforeStart))
    else
      Return(())
  }

  /** IsValidDateRange: true exactly when ValidateDates does not throw. */
  function IsValidDateRange(t: TaskDTO): (ok: bool)
    ensures ok <==> ValidateDates(t).Return?
  {
    match ValidateDates(t)
    case Return(_) => true
    case Throw(_) => false
  }

  /** A date range is valid exactly when both dates are set and the deadline
      is not before the start; equal dates are accepted. */
  lemma ValidDateRangeIff(t: TaskDTO)
    ensures IsValidDateRange(t) <==>
      t.startDate != DefaultDate && t.deadlineDate != DefaultDate && t.startDate <= t.deadlineDate
  {
  }

  function Clamp(lo: real, hi: real, x: real): (r: real)
    requires lo <= hi
    ensures lo <= r <= hi
    ensures lo <= x <= hi ==> r == x
  {
    if x < lo then lo else if x > hi then hi else x
  }

  /** CompletionPercentage at time `now`: 100 when Completed, 0 when
      NotStarted or when the deadline equals the start, otherwise the share of
      the start-to-deadline span that has elapsed, as a percentage clamped to
      [0, 100]. */
  function CompletionPercentage(t: TaskDTO, now: Ticks): (pct: real)
    ensures 0.0 <= pct <= 100.0
    ensures t.status == Completed ==> pct == 100.0
    ensures t.status == NotStarted ==> pct == 0.0
    ensures t.deadlineDate == t.startDate && t.status != Completed ==> pct == 0.0
  {
    if t.status == Completed then 100.0
    else if t.status == NotStarted then 0.0
    else if t.deadlineDate == t.startDate then 0.0
    else Clamp(0.0, 100.0,
               (now - t.startDate) as real / (t.deadlineDate - t.startDate) as real * 100.0)
  }

  lemma DivideMonotone(a: real, b: real, d: real)
    requires d > 0.0 && a <= b
    ensures a / d <= b / d
  {
    assert b / d - a / d == (b - a) / d;
  }

  /** For a task in progress whose deadline lies after its start, the
      percentage never decreases as time passes. */
  lemma CompletionMonotone(t: TaskDTO, now1: Ticks, now2: Ticks)
    requires t.status == Working || t.status == Pending
    requires t.startDate < t.deadlineDate
    requires now1 <= now2
    ensures CompletionPercentage(t, now1) <= CompletionPercentage(t, now2)
  {
    var span := (t.deadlineDate - t.startDate) as real;
    DivideMonotone((now1 - t.startDate) as real, (now2 - t.startDate) as real, span);
  }

  /** A task in progress is at 0% up to its start and at 100% from its
      deadline on. */
  lemma CompletionAtEnds(t: TaskDTO, now: Ticks)
    requires t.status == Working || t.status == Pending
    requires t.startDate < t.deadlineDate
    ensures now <= t.startDate ==> CompletionPercentage(t, now) == 0.0
    ensures now >= t.deadlineDate ==> CompletionPercentage(t, now) == 100.0
  {
    var span := (t.deadlineDate - t.startDate) as real;
    var elapsed := (now - t.startDate) as real;
    if now >= t.deadlineDate {
      DivideMonotone(span, elapsed, span);
      assert span / span == 1.0;
    }
    if now <= t.startDate {
      DivideMonotone(elapsed, 0.0, span);
    }
  }

  /** IsOverdue: the deadline has passed and the task is not Completed. */
  predicate IsOverdue(t: TaskDTO, now: Ticks) {
    now > t.deadlineDate && t.status != Completed
  }

  /** Overdue stays overdue as time passes, a Completed task is never
      overdue, and an overdue task in progress with a proper date range shows
      100%. */
  lemma OverdueFacts(t: TaskDTO, now1: Ticks, now2: Ticks)
    ensures IsOverdue(t, now1) && now1 <= now2 ==> IsOverdue(t, now2)
    ensures t.status == Completed ==> !IsOverdue(t, now1)
    ensures IsOverdue(t, now1) && t.status != NotStarted && t.startDate < t.deadlineDate ==>
      CompletionPercentage(t, now1) == 100.0
  {
    if t.status != Completed && t.status != NotStarted && t.startDate < t.deadlineDate {
      CompletionAtEnds(t, now1);
    }
  }

  /** DaysUntilDeadline: whole days from now to the deadline, truncated
      toward zero as TimeSpan.Days is. */
  function DaysUntilDeadline(t: TaskDTO, now: Ticks): (days: int)
    ensures now <= t.deadlineDate ==> days >= 0 && days * TicksPerDay <= t.deadlineDate - now < (days + 1) * TicksPerDay
    ensures now > t.deadlineDate ==> days <= 0 && (days - 1) * TicksPerDay < t.deadlineDate - now <= days * TicksPerDay
  {
    TruncDiv(t.deadlineDate - now, TicksPerDay)
  }

  /** DaysSinceStart: whole days from the start to now, truncated toward
      zero. */
  function DaysSinceStart(t: TaskDTO, now: Ticks): (days: int)
    ensures now >= t.startDate ==> days >= 0 && days * TicksPerDay <= now - t.startDate < (days + 1) * TicksPerDay
    ensures now < t.startDate ==> days <= 0 && (days - 1) * TicksPerDay < now - t.startDate <= days * TicksPerDay
  {
    TruncDiv(now - t.startDate, TicksPerDay)
  }

  // ---------------------------------------------------------------------
  // The static StatusChangeDates dictionary

  /** The StatusChangeDate getter over a given dictionary: null for a
      NotStarted task and for a task with no entry, else the recorded time. */
  function StatusChangeDateIn(dates: map<int, Ticks>, t: TaskDTO): (r: Option<Ticks>)
    ensures r.Some? <==> t.status != NotStarted && t.taskId in dates
    ensures r.Some? ==> r.value == dates[t.taskId]
  {
    if t.status == NotStarted then None
    else if t.taskId in dates then Some(dates[t.taskId])
    else None
  }

  /** The dictionary after UpdateStatus(t, newStatus) at time `now`. */
  function DatesAfterUpdate(dates: map<int, Ticks>, t: TaskDTO, newStatus: TaskStatus, now: Ticks): (r: map<int, Ticks>)
    ensures newStatus == t.status ==> r == dates
    ensures newStatus != t.status && newStatus != NotStarted ==>
      t.taskId in r && r[t.taskId] == now
    ensures newStatus != t.status && newStatus == NotStarted ==> t.taskId !in r
    ensures forall k :: k != t.taskId ==> (k in r <==> k in dates)
    ensures forall k :: k != t.taskId && k in r ==> r[k] == dates[k]
  {
    if t.status == newStatus then dates
    else if newStatus != NotStarted then dates[t.taskId := now]
    else if t.taskId in dates then dates - {t.taskId}
    else dates
  }

  /** After a real status change the getter reports the change time (or
      null, for a move back to NotStarted); a same-status update changes
      nothing it reports. */
  lemma StatusChangeDateAfterUpdate(dates: map<int, Ticks>, t: TaskDTO, newStatus: TaskStatus, now: Ticks)
    ensures var after := DatesAfterUpdate(dates, t, newStatus, now);
      var t' := t.(status := newStatus);
      && (newStatus != t.status && newStatus != NotStarted ==> StatusChangeDateIn(after, t') == Some(now))
      && (newStatus == NotStarted ==> StatusChangeDateIn(after, t') == None)
      && (newStatus == t.status ==> StatusChangeDateIn(after, t') == StatusChangeDateIn(dates, t))
  {
  }

  /** Holder of the static StatusChangeDates dictionary shared by every
      TaskDTO. */
  class StatusChangeRegistry {
    var dates: map<int, Ticks>

    constructor()
      ensures dates == map[]
    {
      dates := map[];
    }

    /** The StatusChangeDate property of t. */
    function StatusChangeDate(t: TaskDTO): Option<Ticks>
      reads this
    {
      StatusChangeDateIn(dates, t)
    }

    /** UpdateStatus(newStatus) on t at time `now`: returns t with its new
        Status; records `now` for a change to a status other than
        NotStarted, drops the entry on a change to NotStarted, and does
        nothing when the status is unchanged. The transition table is not
        consulted. */
    method UpdateStatus(t: TaskDTO, newStatus: TaskStatus, now: Ticks) returns (updated: TaskDTO)
      modifies this
      ensures updated == t.(status := newStatus)
      ensures dates == DatesAfterUpdate(old(dates), t, newStatus, now)
    {
      updated := t;
      if t.status != newStatus {
        updated := t.(status := newStatus);
        if newStatus != NotStarted {
          dates := dates[t.taskId := now];
        } else {
          if t.taskId in dates {
            dates := dates - {t.taskId};
          }
        }
      }
    }
  }
}
