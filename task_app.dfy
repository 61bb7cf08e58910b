/** The browser controller of the task page: the status labels and the
    client copy of the transition table, form validation, the request a save
    sends, the days-in-status counter, and the scope fields the form and the
    status dialog keep. */
module TaskApp {
  import opened Common
  import opened Text
  import opened TaskEntities
  import opened TasksControllers

  /** The JavaScript values the page handles; numbers are integers. */
  datatype JsValue = Undefined | Null | Bool(b: bool) | Num(n: int) | Str(s: string)

  /** What String(v) gives. */
  function JsToString(v: JsValue): string {
    match v
    case Undefined => "undefined"
    case Null => "null"
    case Bool(b) => if b then "true" else "false"
    case Num(n) => IntToString(n)
    case Str(s) => s
  }

  /** parseInt(v): the argument is first converted to a string; None is NaN.
      A number reads back as itself; undefined, null and the booleans are
      NaN. */
  function JsParseInt(v: JsValue): (r: Option<int>)
    ensures v.Num? ==> r == Some(v.n)
    ensures v.Undefined? || v.Null? || v.Bool? ==> r == None
  {
    match v
    case Num(n) =>
      ParseIntOfIntToString(n);
      ParseInt(JsToString(v))
    case Str(s) => ParseInt(s)
    case _ =>
      var t := JsToString(v);
      assert !IsWhiteSpace(t[0]) && !IsDigit(t[0]) && t[0] != '-' && t[0] != '+';
      ParseIntOfNonNumeric(t);
      ParseInt(t)
  }

  /** An integer, and its decimal text, parse back to that integer; null,
      undefined and the booleans parse to NaN. */
  lemma JsParseIntFacts(v: JsValue)
    ensures v.Num? ==> JsParseInt(v) == Some(v.n)
    ensures v.Str? && (exists n :: v.s == IntToString(n)) ==> JsParseInt(v).Some?
    ensures v.Undefined? || v.Null? || v.Bool? ==> JsParseInt(v) == None
  {
    match v
    case Num(n) => ParseIntOfIntToString(n);
    case Str(s) =>
      if exists n :: s == IntToString(n) {
        var n :| s == IntToString(n);
        ParseIntOfIntToString(n);
      }
    case _ =>
      var t := JsToString(v);
      assert !IsWhiteSpace(t[0]) && !IsDigit(t[0]) && t[0] != '-' && t[0] != '+';
      ParseIntOfNonNumeric(t);
  }

  /** The values a condition treats as false (NaN aside). */
  predicate Falsy(v: JsValue) {
    v == Undefined || v == Null || v == Bool(false) || v == Num(0) || v == Str("")
  }

  /** getStatusText: the label of a status value, "Unknown" for anything
      that does not parse to 0..3. A value that parses to a member's value
      gets that member's name, with NotStarted spelt "Not Started". */
  function GetStatusText(status: JsValue): (text: string)
    ensures text == "Unknown" <==>
      JsParseInt(status).None? || StatusFromValue(JsParseInt(status).value).None?
    ensures JsParseInt(status).Some? && StatusFromValue(JsParseInt(status).value).Some? ==>
      var s := StatusFromValue(JsParseInt(status).value).value;
      text == if s == NotStarted then "Not Started" else StatusName(s)
  {
    var parsed := JsParseInt(status);
    StatusLabelFacts(parsed);
    StatusLabel(parsed)
  }

  /** The switch gives "Unknown" exactly off the members' values, and a
      member's label on its value. */
  lemma StatusLabelFacts(parsed: Option<int>)
    ensures StatusLabel(parsed) == "Unknown" <==> parsed.None? || StatusFromValue(parsed.value).None?
    ensures parsed.Some? && StatusFromValue(parsed.value).Some? ==>
      var s := StatusFromValue(parsed.value).value;
      StatusLabel(parsed) == if s == NotStarted then "Not Started" else StatusName(s)
  {
    LabelsDiffer();
  }

  /** Each member's label differs from "Unknown". */
  lemma LabelsDiffer()
    ensures "Not Started" != "Unknown" && "Working" != "Unknown"
    ensures "Pending" != "Unknown" && "Completed" != "Unknown"
  {
    assert "Not Started"[0] != "Unknown"[0] && "Working"[0] != "Unknown"[0];
    assert "Pending"[0] != "Unknown"[0] && "Completed"[0] != "Unknown"[0];
  }

  /** The switch of getStatusText on the parsed value. */
  function StatusLabel(parsed: Option<int>): string {
    match parsed
    case Some(0) => "Not Started"
    case Some(1) => "Working"
    case Some(2) => "Pending"
    case Some(3) => "Completed"
    case _ => "Unknown"
  }

  /** StatusLabel on parsed values: a member's value gets its label, any
      other value "Unknown". */
  lemma StatusLabelOnValues(s: TaskStatus, v: int)
    ensures StatusLabel(Some(StatusValue(s))) ==
      (if s == NotStarted then "Not Started" else StatusName(s))
    ensures StatusFromValue(v).None? ==> StatusLabel(Some(v)) == "Unknown"
  {
  }

  /** The label of every member's value is the server's member name, except
      that NotStarted reads "Not Started"; any other value is "Unknown". */
  lemma StatusTextMatchesServer(s: TaskStatus, v: int)
    ensures GetStatusText(Num(StatusValue(s))) ==
      (if s == NotStarted then "Not Started" else StatusName(s))
    ensures StatusFromValue(v).None? ==> GetStatusText(Num(v)) == "Unknown"
    ensures GetStatusText(Str(IntToString(v))) == GetStatusText(Num(v))
  {
    var k := StatusValue(s);
    assert JsParseInt(Num(k)) == Some(k) by { ParseIntOfIntToString(k); }
    assert JsParseInt(Num(v)) == Some(v) by { ParseIntOfIntToString(v); }
    assert JsParseInt(Str(IntToString(v))) == Some(v) by { ParseIntOfIntToString(v); }
    StatusLabelOnValues(s, v);
  }

  /** parseInt is called with no radix, so a status text "0x" followed by
      hexadecimal digits is labelled by its base-16 value ("0x3" reads as
      Completed). */
  lemma HexStatusText(digits: string)
    requires digits != [] && AllHexDigits(digits)
    ensures GetStatusText(Str("0x" + digits)) == StatusLabel(Some(HexDigitsValue(digits)))
  {
    ParseIntOfHex(digits);
  }

  /** The fields of a task row the page reads. statusChangeDate is the
      parsed form of the string the row carries. */
  datatype ClientTask = ClientTask(
    taskId: int,
    title: Option<string>,
    description: Option<string>,
    status: JsValue,
    isCompleted: JsValue,
    assignedEmployeeId: int,
    reviewerId: int,
    statusChangeDate: ChangeDate)

  /** A missing or falsy statusChangeDate, one `new Date` cannot parse, or
      an instant in milliseconds. */
  datatype ChangeDate = Missing | Unparseable | At(ms: int)

  /** isValidTransition: false with no selected task; otherwise the table on
      the parsed current and new status, false for a current status outside
      0..3. */
  function IsValidTransition(selected: Option<ClientTask>, newStatus: JsValue): (ok: bool)
    ensures ok <==>
      && selected.Some?
      && JsParseInt(selected.value.status).Some?
      && JsParseInt(newStatus).Some?
      && StatusFromValue(JsParseInt(selected.value.status).value).Some?
      && IsValidRawTransition(StatusFromValue(JsParseInt(selected.value.status).value).value,
                              JsParseInt(newStatus).value)
  {
    if selected.Some? then
      var current, next := JsParseInt(selected.value.status), JsParseInt(newStatus);
      ClientTableOnParsed(current, next);
      ClientTable(current, next)
    else false
  }

  /** The switch of isValidTransition on the parsed current and new values. */
  function ClientTable(current: Option<int>, next: Option<int>): bool {
    match current
    case Some(0) => next == Some(1)
    case Some(1) => next == Some(2) || next == Some(3)
    case Some(2) => next == Some(1) || next == Some(3)
    case Some(3) => false
    case _ => false
  }

  /** The client and server tables agree: for a selected task whose status
      is a member's value, the client accepts a new value exactly when the
      controller does, whether the new value is a number or its text. */
  lemma ClientTableMatchesServer(t: ClientTask, current: TaskStatus, v: int)
    requires t.status == Num(StatusValue(current))
    ensures IsValidTransition(Some(t), Num(v)) == IsValidRawTransition(current, v)
    ensures IsValidTransition(Some(t), Str(IntToString(v))) == IsValidRawTransition(current, v)
  {
    StatusValuesExact(StatusValue(current), current);
    assert JsParseInt(Str(IntToString(v))) == Some(v) by { ParseIntOfIntToString(v); }
  }

  /** On parsed values the client switch is the controller's table. */
  lemma ClientTableOnValues(c: int, v: int)
    ensures ClientTable(Some(c), Some(v)) <==>
      StatusFromValue(c).Some? && IsValidRawTransition(StatusFromValue(c).value, v)
  {
  }

  /** The client switch accepts exactly the parsed pairs the controller's
      table accepts. */
  lemma ClientTableOnParsed(current: Option<int>, next: Option<int>)
    ensures ClientTable(current, next) <==>
      && current.Some? && next.Some?
      && StatusFromValue(current.value).Some?
      && IsValidRawTransition(StatusFromValue(current.value).value, next.value)
  {
    if current.Some? && next.Some? {
      ClientTableOnValues(current.value, next.value);
    }
  }

  /** With no task selected, or a current status outside 0..3, the client
      accepts nothing. */
  lemma ClientTableRefusesUnknown(t: ClientTask, c: int, newStatus: JsValue)
    requires StatusFromValue(c).None?
    ensures !IsValidTransition(None, newStatus)
    ensures !IsValidTransition(Some(t.(status := Num(c))), newStatus)
  {
    ParseIntOfIntToString(c);
  }

  /** The task form ($scope.task). The ids are select values, so strings. */
  datatype TaskForm = TaskForm(
    taskId: int,
    title: Option<string>,
    description: Option<string>,
    isCompleted: JsValue,
    assignedEmployeeId: JsValue,
    reviewerId: JsValue)

  const TitleAlert: string := "Title is required"
  const AssigneeAlert: string := "Please select an assigned employee"
  const ReviewerAlert: string := "Please select a reviewer"

  /** validateTask: None when the form passes, else the first alert it
      shows — a blank title, then no assignee, then no reviewer. */
  function ValidateTask(form: TaskForm): (alert: Option<string>)
    ensures alert.None? <==>
      form.title.Some? && !IsBlank(form.title.value) &&
      !Falsy(form.assignedEmployeeId) && !Falsy(form.reviewerId)
    ensures (form.title.None? || IsBlank(form.title.value)) ==> alert == Some(TitleAlert)
    ensures (form.title.Some? && !IsBlank(form.title.value) && Falsy(form.assignedEmployeeId)) ==>
      alert == Some(AssigneeAlert)
    ensures (form.title.Some? && !IsBlank(form.title.value) && !Falsy(form.assignedEmployeeId)
             && Falsy(form.reviewerId)) ==> alert == Some(ReviewerAlert)
  {
    TrimEmptyIffBlank(if form.title.Some? then form.title.value else "");
    if form.title.None? || Trim(form.title.value) == [] then Some(TitleAlert)
    else if Falsy(form.assignedEmployeeId) then Some(AssigneeAlert)
    else if Falsy(form.reviewerId) then Some(ReviewerAlert)
    else None
  }

  /** The body saveTask sends; NaN ids travel as null (None). */
  datatype TaskPayload = TaskPayload(
    taskId: int,
    title: string,
    description: string,
    isCompleted: JsValue,
    assignedEmployeeId: Option<int>,
    reviewerId: Option<int>)

  datatype HttpRequest = HttpRequest(verb: string, url: string, data: TaskPayload)

  const TasksUrl: string := "/api/Tasks"

  /** saveTask: nothing when validation fails; otherwise the trimmed form,
      POSTed to the collection for task id 0 and PUT to the task's own URL
      for any other id. */
  function SaveRequest(form: TaskForm): (r: Option<HttpRequest>)
    ensures r.Some? <==> ValidateTask(form).None?
    ensures r.Some? ==>
      && r.value.data.taskId == form.taskId
      && r.value.data.title != []
      && r.value.data.assignedEmployeeId == JsParseInt(form.assignedEmployeeId)
      && r.value.data.reviewerId == JsParseInt(form.reviewerId)
      && (r.value.verb == "POST" <==> form.taskId == 0)
  {
    TrimEmptyIffBlank(if form.title.Some? then form.title.value else "");
    if ValidateTask(form).Some? then None
    else
      var data := TaskPayload(
        form.taskId,
        Trim(form.title.value),
        if form.description.Some? then Trim(form.description.value) else "",
        if Falsy(form.isCompleted) then Bool(false) else form.isCompleted,
        JsParseInt(form.assignedEmployeeId),
        JsParseInt(form.reviewerId));
      if form.taskId == 0 then Some(HttpRequest("POST", TasksUrl, data))
      else Some(HttpRequest("PUT", TasksUrl + "/" + IntToString(form.taskId), data))
  }

  /** A request is sent exactly when validation passes; it is a POST exactly
      for task id 0; a PUT's route id reads back as the body's task id; the
      title sent is trimmed and not empty. */
  lemma SaveRequestFacts(form: TaskForm)
    ensures SaveRequest(form).Some? <==> ValidateTask(form).None?
    ensures SaveRequest(form).Some? ==>
      var r := SaveRequest(form).value;
      && (r.verb == "POST" <==> form.taskId == 0)
      && (r.verb == "POST" ==> r.url == TasksUrl)
      && (r.verb != "POST" ==>
            (r.verb == "PUT" && |r.url| > |TasksUrl| + 1 &&
             r.url[..|TasksUrl| + 1] == TasksUrl + "/" &&
             ParseInt(r.url[|TasksUrl| + 1..]) == Some(form.taskId)))
      && r.data.taskId == form.taskId
      && r.data.title != [] && r.data.title == Trim(form.title.value)
  {
    if ValidateTask(form).None? {
      TrimEmptyIffBlank(form.title.value);
      ParseIntOfIntToString(form.taskId);
      var r := SaveRequest(form).value;
      if form.taskId != 0 {
        assert r.url[|TasksUrl| + 1..] == IntToString(form.taskId);
      }
    }
  }

  /** The freshly reset form: task id 0 and everything else empty. */
  const EmptyForm: TaskForm := TaskForm(0, Some(""), Some(""), Bool(false), Str(""), Str(""))

  /** A reset form is refused for its title and so sends nothing. */
  lemma ResetFormIsRefused()
    ensures ValidateTask(EmptyForm) == Some(TitleAlert)
    ensures SaveRequest(EmptyForm).None?
  {
  }

  /** The form editTask fills from a task row. */
  function EditForm(t: ClientTask): (form: TaskForm)
    ensures form.taskId == t.taskId && form.title == t.title && form.isCompleted == t.isCompleted
    ensures form.description.Some? && (t.description.Some? ==> form.description == t.description)
    ensures !Falsy(form.assignedEmployeeId) && !Falsy(form.reviewerId)
    ensures JsParseInt(form.assignedEmployeeId) == Some(t.assignedEmployeeId)
    ensures JsParseInt(form.reviewerId) == Some(t.reviewerId)
  {
    ParseIntOfIntToString(t.assignedEmployeeId);
    ParseIntOfIntToString(t.reviewerId);
    assert IntToString(t.assignedEmployeeId) != "" && IntToString(t.reviewerId) != "";
    TaskForm(t.taskId, t.title,
             Some(if t.description.Some? then t.description.value else ""),
             t.isCompleted,
             Str(IntToString(t.assignedEmployeeId)), Str(IntToString(t.reviewerId)))
  }

  /** Saving an edited row with a non-blank title PUTs it to its own URL (POSTs it when its id is 0) with its own ids. */
  lemma EditThenSave(t: ClientTask)
    requires t.title.Some? && !IsBlank(t.title.value)
    ensures SaveRequest(EditForm(t)).Some?
    ensures var r := SaveRequest(EditForm(t)).value;
      && r.verb == (if t.taskId == 0 then "POST" else "PUT")
      && r.data.assignedEmployeeId == Some(t.assignedEmployeeId)
      && r.data.reviewerId == Some(t.reviewerId)
  {
    var form := EditForm(t);
    assert ValidateTask(form).None?;
  }

  const MsPerDay: nat := 1000 * 60 * 60 * 24

  /** getDaysInStatus: 0 with no task or no parseable change date, otherwise
      the whole days between the change and now, rounded up, whichever of
      the two comes first. */
  function GetDaysInStatus(task: Option<ClientTask>, now: int): (days: nat)
    ensures (task.None? || !task.value.statusChangeDate.At?) ==> days == 0
    ensures task.Some? && task.value.statusChangeDate.At? ==>
      var elapsed := Abs(now - task.value.statusChangeDate.ms);
      days * MsPerDay >= elapsed && (days == 0 || (days - 1) * MsPerDay < elapsed)
  {
    if task.None? then 0
    else match task.value.statusChangeDate
      case At(ms) => CeilDiv(Abs(now - ms), MsPerDay)
      case _ => 0
  }

  /** The count is 0 exactly at the change instant, and a change one day
      back (or ahead) counts as one day. */
  lemma DaysInStatusFacts(t: ClientTask, now: int)
    requires t.statusChangeDate.At?
    ensures GetDaysInStatus(Some(t), now) == 0 <==> now == t.statusChangeDate.ms
    ensures (now - t.statusChangeDate.ms == MsPerDay || t.statusChangeDate.ms - now == MsPerDay) ==>
      GetDaysInStatus(Some(t), now) == 1
  {
  }

  /** The PATCH updateTaskStatus sends. */
  datatype StatusPatch = StatusPatch(url: string, body: JsValue)

  /** The $scope fields of the page. */
  class TaskScope {
    var task: TaskForm
    var formTitle: string
    var buttonText: string
    var selectedTask: Option<ClientTask>
    var newStatus: JsValue
    var statusUpdateError: Option<string>

    /** The initial assignments followed by resetForm. */
    constructor()
      ensures task == EmptyForm && formTitle == "Add New Task" && buttonText == "Add Task"
      ensures selectedTask.None? && newStatus == Null && statusUpdateError.None?
    {
      formTitle := "Add New Task";
      buttonText := "Save Task";
      selectedTask := None;
      newStatus := Null;
      statusUpdateError := None;
      task := EmptyForm;
      buttonText := "Add Task";
    }

    /** resetForm: an empty form titled for adding. */
    method ResetForm()
      modifies this
      ensures task == EmptyForm && formTitle == "Add New Task" && buttonText == "Add Task"
      ensures selectedTask == old(selectedTask) && newStatus == old(newStatus)
      ensures statusUpdateError == old(statusUpdateError)
    {
      task := EmptyForm;
      formTitle := "Add New Task";
      buttonText := "Add Task";
    }

    /** editTask: the row's fields in the form, titled for editing. */
    method EditTask(t: ClientTask)
      modifies this
      ensures task == EditForm(t) && formTitle == "Edit Task" && buttonText == "Update Task"
      ensures selectedTask == old(selectedTask) && newStatus == old(newStatus)
      ensures statusUpdateError == old(statusUpdateError)
    {
      task := EditForm(t);
      formTitle := "Edit Task";
      buttonText := "Update Task";
    }

    /** prepareStatusUpdate: selects the row, preselects its current status
      and clears the error. */
    method PrepareStatusUpdate(t: ClientTask)
      modifies this
      ensures selectedTask == Some(t) && newStatus == t.status && statusUpdateError.None?
      ensures task == old(task) && formTitle == old(formTitle) && buttonText == old(buttonText)
    {
      selectedTask := Some(t);
      newStatus := t.status;
      statusUpdateError := None;
    }

    /** The request updateTaskStatus sends: none without a selected task or
        with a falsy new status, else the new status PATCHed to the task's
        status URL. */
    function StatusRequest(): (p: Option<StatusPatch>)
      reads this
      ensures p.Some? <==> selectedTask.Some? && !Falsy(newStatus)
      ensures p.Some? ==>
        (p.value.body == newStatus && p.value.body != Num(0) &&
         p.value.url == "/api/tasks/" + IntToString(selectedTask.value.taskId) + "/status")
    {
      if selectedTask.None? || Falsy(newStatus) then None
      else Some(StatusPatch("/api/tasks/" + IntToString(selectedTask.value.taskId) + "/status", newStatus))
    }
  }

  /** Right after prepareStatusUpdate the preselected status is never a
      valid transition, since no status moves to itself. */
  lemma PreselectedStatusIsRefused(t: ClientTask)
    ensures !IsValidTransition(Some(t), t.status)
  {
    NoClientSelfTransition(JsParseInt(t.status));
  }

  lemma NoClientSelfTransition(x: Option<int>)
    ensures !ClientTable(x, x)
  {
  }
}
