/**
 * The server's request and response records (`dto` package) and the
 * constraints a task request declares.
 */
module Dto {
  import opened Wrappers
  import opened Text
  import opened Dates
  import opened Validation
  import opened Model

  /** `TaskRequestDTO`: the body of a create or update request. */
  datatype TaskRequest = TaskRequest(
    name: Option<string>,
    description: Option<string>,
    priority: Option<Priority>,
    status: Option<Status>,
    dueDate: Option<Date>,
    projectId: Option<int>)

  /** `ProjectRequestDTO`: a project's name and description. */
  datatype ProjectRequest = ProjectRequest(name: Option<string>, description: Option<string>)

  /** `TaskResponseDTO`: a task with its project flattened to the project's id. */
  datatype TaskResponse = TaskResponse(
    id: Option<int>,
    name: Option<string>,
    description: Option<string>,
    priority: Option<Priority>,
    status: Option<Status>,
    dueDate: Option<Date>,
    projectId: Option<int>)

  /** `ProjectResponseDTO`: a project with its tasks as task responses. */
  datatype ProjectResponse = ProjectResponse(
    id: Option<int>,
    name: Option<string>,
    description: Option<string>,
    tasks: seq<TaskResponse>)

  /** All the constraints on a task request hold for the given day; `projectId` is unconstrained. */
  predicate TaskRequestValid(r: TaskRequest, today: Date) {
    && r.name.Some? && 3 <= Utf16Length(r.name.value) <= 100
    && (r.description.None? || Utf16Length(r.description.value) <= 500)
    && r.priority.Some?
    && r.status.Some?
    && (r.dueDate.None? || !IsBefore(r.dueDate.value, today))
  }

  /** The violations `@Valid` reports for a request body, in declaration order. */
  function TaskRequestViolations(r: TaskRequest, today: Date): (errs: seq<FieldError>)
    ensures errs == [] <==> TaskRequestValid(r, today)
    ensures forall e :: e in errs ==> e.field in ["name", "description", "priority", "status", "dueDate"]
  {
    NotNullCheck("name", r.name)
    + SizeCheck("name", r.name, 3, 100, TaskNameMessage)
    + SizeCheck("description", r.description, 0, 500, DescriptionMessage)
    + NotNullCheck("priority", r.priority)
    + NotNullCheck("status", r.status)
    + FutureOrPresentCheck("dueDate", r.dueDate, today, DueDateMessage)
  }

  /** An empty name is rejected whatever the other fields hold. */
  lemma EmptyNameRejected(r: TaskRequest, today: Date)
    requires r.name == Some("")
    ensures FieldError("name", TaskNameMessage) in TaskRequestViolations(r, today)
  {
    assert Utf16Length("") == 0;
    var size := SizeCheck("name", r.name, 3, 100, TaskNameMessage);
    assert size == [FieldError("name", TaskNameMessage)];
    var others := SizeCheck("description", r.description, 0, 500, DescriptionMessage)
      + NotNullCheck("priority", r.priority)
      + NotNullCheck("status", r.status)
      + FutureOrPresentCheck("dueDate", r.dueDate, today, DueDateMessage);
    assert TaskRequestViolations(r, today) == NotNullCheck("name", r.name) + size + others;
    assert (NotNullCheck("name", r.name) + size)[|NotNullCheck("name", r.name)|] == size[0];
  }

  /** A due date before today is rejected whatever the other fields hold. */
  lemma PastDueDateRejected(r: TaskRequest, today: Date)
    requires r.dueDate.Some? && IsBefore(r.dueDate.value, today)
    ensures FieldError("dueDate", DueDateMessage) in TaskRequestViolations(r, today)
  {
    var last := FutureOrPresentCheck("dueDate", r.dueDate, today, DueDateMessage);
    assert last == [FieldError("dueDate", DueDateMessage)];
    var errs := TaskRequestViolations(r, today);
    assert errs[|errs| - 1] == last[0];
  }
}
