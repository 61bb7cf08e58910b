/** TaskMapper: conversion between the TaskEntity row and the TaskDTO
    transfer record. */
module TaskMapping {
  import opened Common
  import opened Employees
  import opened TaskEntities
  import opened TaskDtos

  /** `nav?.FirstName`: the first name of a loaded navigation, or null. */
  function NavigationName(nav: Option<Employee>): (name: Option<string>)
    ensures name.Some? <==> nav.Some? && nav.value.firstName.Some?
    ensures name.Some? ==> name == nav.value.firstName
  {
    match nav
    case None => None
    case Some(e) => e.firstName
  }

  /** MapToDTO for a non-null entity: scalars are copied, the two names come
      from the navigations, EmployeeName is left null. */
  function MapToDTO(e: TaskEntity): (d: TaskDTO)
    ensures d.assignedEmployeeName == NavigationName(e.assignedEmployee)
    ensures d.reviewerName == NavigationName(e.reviewer)
    ensures d.employeeName.None?
  {
    TaskDTO(e.taskId, e.title, e.description, e.status, e.assignedEmployeeId, e.reviewerId,
            NavigationName(e.assignedEmployee), NavigationName(e.reviewer), None,
            e.startDate, e.deadlineDate)
  }

  /** MapToDTO, null in, null out. */
  function MapToDTOOrNull(e: Option<TaskEntity>): (d: Option<TaskDTO>)
    ensures d.Some? <==> e.Some?
    ensures d.Some? ==> d.value == MapToDTO(e.value)
  {
    match e
    case None => None
    case Some(x) => Some(MapToDTO(x))
  }

  const SevenDays: int := 7 * TicksPerDay

  /** MapToEntity for a non-null DTO at time `now`: scalars are copied, a
      default StartDate becomes now and a default DeadlineDate becomes now
      plus seven days; the navigations are not set. */
  function MapToEntity(d: TaskDTO, now: Ticks): (e: TaskEntity)
    ensures d.startDate != DefaultDate ==> e.startDate == d.startDate
    ensures d.startDate == DefaultDate ==> e.startDate == now
    ensures d.deadlineDate != DefaultDate ==> e.deadlineDate == d.deadlineDate
    ensures d.deadlineDate == DefaultDate ==> e.deadlineDate == now + SevenDays
    ensures e.assignedEmployee.None? && e.reviewer.None?
  {
    TaskEntity(d.taskId, d.title, d.description, d.status, d.assignedEmployeeId, d.reviewerId,
               if d.startDate != DefaultDate then d.startDate else now,
               if d.deadlineDate != DefaultDate then d.deadlineDate else now + SevenDays,
               None, None)
  }

  /** MapToEntity, null in, null out. */
  function MapToEntityOrNull(d: Option<TaskDTO>, now: Ticks): (e: Option<TaskEntity>)
    ensures e.Some? <==> d.Some?
    ensures e.Some? ==> e.value == MapToEntity(d.value, now)
  {
    match d
    case None => None
    case Some(x) => Some(MapToEntity(x, now))
  }

  /** MapToDTOList: null in, null out; otherwise one DTO per entity, in the
      same order. */
  function MapToDTOList(es: Option<seq<TaskEntity>>): (ds: Option<seq<TaskDTO>>)
    ensures ds.Some? <==> es.Some?
    ensures ds.Some? ==> (|ds.value| == |es.value| &&
      forall i :: 0 <= i < |ds.value| ==> ds.value[i] == MapToDTO(es.value[i]))
  {
    match es
    case None => None
    case Some(s) => Some(MapToDTOs(s))
  }

  /** The mapping of a non-null sequence. */
  function MapToDTOs(s: seq<TaskEntity>): (ds: seq<TaskDTO>)
    ensures |ds| == |s| && forall i :: 0 <= i < |s| ==> ds[i] == MapToDTO(s[i])
  {
    seq(|s|, i requires 0 <= i < |s| => MapToDTO(s[i]))
  }

  /** An entity with both dates set survives the trip through the DTO on
      every scalar field; only the navigations are lost. */
  lemma EntityRoundTrip(e: TaskEntity, now: Ticks)
    requires e.startDate != DefaultDate && e.deadlineDate != DefaultDate
    ensures MapToEntity(MapToDTO(e), now) == e.(assignedEmployee := None, reviewer := None)
  {
  }

  /** A DTO with both dates set survives the trip through the entity on every
      field except the three display names, which come back null. */
  lemma DtoRoundTrip(d: TaskDTO, now: Ticks)
    requires d.startDate != DefaultDate && d.deadlineDate != DefaultDate
    ensures MapToDTO(MapToEntity(d, now)) ==
      d.(assignedEmployeeName := None, reviewerName := None, employeeName := None)
  {
  }

  /** When both dates are defaulted the entity spans exactly seven days from
      now. */
  lemma DefaultDatesGiveValidRange(d: TaskDTO, now: Ticks)
    requires d.startDate == DefaultDate && d.deadlineDate == DefaultDate
    ensures var e := MapToEntity(d, now);
      e.deadlineDate - e.startDate == SevenDays && e.startDate < e.deadlineDate
  {
  }
}
