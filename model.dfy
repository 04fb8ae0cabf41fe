/**
 * The server's entities: the `Priority` and `Status` enums, `Task`, and
 * `Project`, with the validity rules their constraint annotations declare.
 *
 * A task refers to its project by the project's id (the foreign key the task
 * owns). A project's task list is not stored with the project: it is the
 * inverse side of that key, loaded from the tasks (see `Repository.TasksOf`).
 */
module Model {
  import opened Wrappers
  import opened Text
  import opened Dates
  import opened Validation

  datatype Priority = Low | Medium | High | Critical
  datatype Status = Todo | InProgress | Blocked | Done

  /** `Priority.name()`. */
  function PriorityName(p: Priority): string {
    match p
    case Low => "LOW"
    case Medium => "MEDIUM"
    case High => "HIGH"
    case Critical => "CRITICAL"
  }

  /** `Status.name()`. */
  function StatusName(s: Status): string {
    match s
    case Todo => "TODO"
    case InProgress => "IN_PROGRESS"
    case Blocked => "BLOCKED"
    case Done => "DONE"
  }

  /** `Priority.valueOf(s)`: the constant with exactly that name, or IllegalArgumentException (None). */
  function ParsePriority(s: string): (r: Option<Priority>)
    ensures r.Some? ==> PriorityName(r.value) == s
    ensures r.None? ==> forall p :: PriorityName(p) != s
  {
    if s == "LOW" then Some(Low)
    else if s == "MEDIUM" then Some(Medium)
    else if s == "HIGH" then Some(High)
    else if s == "CRITICAL" then Some(Critical)
    else None
  }

  /** `Status.valueOf(s)`. */
  function ParseStatus(s: string): (r: Option<Status>)
    ensures r.Some? ==> StatusName(r.value) == s
    ensures r.None? ==> forall st :: StatusName(st) != s
  {
    if s == "TODO" then Some(Todo)
    else if s == "IN_PROGRESS" then Some(InProgress)
    else if s == "BLOCKED" then Some(Blocked)
    else if s == "DONE" then Some(Done)
    else None
  }

  /** Every constant's name parses back to it. */
  lemma ParseEnumNames(p: Priority, st: Status)
    ensures ParsePriority(PriorityName(p)) == Some(p)
    ensures ParseStatus(StatusName(st)) == Some(st)
  {
  }

  /** The `tasks` table row; `project` is the id of the assigned project. */
  datatype Task = Task(
    id: Option<int>,
    name: Option<string>,
    description: Option<string>,
    priority: Option<Priority>,
    status: Option<Status>,
    dueDate: Option<Date>,
    project: Option<int>)

  /** A loaded project entity: its columns and its (inverse-side) task list. */
  datatype Project = Project(
    id: Option<int>,
    name: Option<string>,
    description: Option<string>,
    tasks: seq<Task>)

  /** All the constraints on a task hold for the given day. */
  predicate TaskValid(t: Task, today: Date) {
    && t.name.Some? && 3 <= Utf16Length(t.name.value) <= 100
    && (t.description.None? || Utf16Length(t.description.value) <= 500)
    && t.priority.Some?
    && t.status.Some?
    && (t.dueDate.None? || !IsBefore(t.dueDate.value, today))
  }

  /** The violations the validator reports for a task, in declaration order. */
  function TaskViolations(t: Task, today: Date): (r: seq<FieldError>)
    ensures r == [] <==> TaskValid(t, today)
    ensures forall e :: e in r ==> e.field in ["name", "description", "priority", "status", "dueDate"]
  {
    NotNullCheck("name", t.name)
    + SizeCheck("name", t.name, 3, 100, TaskNameMessage)
    + SizeCheck("description", t.description, 0, 500, DescriptionMessage)
    + NotNullCheck("priority", t.priority)
    + NotNullCheck("status", t.status)
    + FutureOrPresentCheck("dueDate", t.dueDate, today, DueDateMessage)
  }

  /** A task with a two-char name and nothing else wrong reports only the size message. */
  lemma TaskShortName(t: Task, today: Date)
    requires t.name == Some("ab")
    requires t.priority.Some? && t.status.Some? && t.description.None? && t.dueDate.None?
    ensures TaskViolations(t, today) == [FieldError("name", TaskNameMessage)]
  {
    assert Utf16Length("ab") == 2;
  }

  /** The description, due date and project are optional: clearing them keeps a task valid. */
  lemma TaskOptionalFields(t: Task, today: Date)
    requires TaskValid(t, today)
    ensures TaskValid(t.(description := None, dueDate := None, project := None), today)
  {
  }

  /** All the constraints on a project hold. */
  predicate ProjectValid(p: Project) {
    && p.name.Some? && 3 <= Utf16Length(p.name.value) <= 100
    && (p.description.None? || Utf16Length(p.description.value) <= 500)
  }

  /** The violations the validator reports for a project. */
  function ProjectViolations(p: Project): (r: seq<FieldError>)
    ensures r == [] <==> ProjectValid(p)
    ensures forall e :: e in r ==> e.field in ["name", "description"]
  {
    NotNullCheck("name", p.name)
    + SizeCheck("name", p.name, 3, 100, ProjectNameMessage)
    + SizeCheck("description", p.description, 0, 500, DescriptionMessage)
  }
}
