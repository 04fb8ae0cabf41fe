/** `TaskMapper`: between task requests, task entities and task responses. */
module TaskMapper {
  import opened Wrappers
  import opened Dates
  import opened Model
  import opened Dto

  /** `toEntity`: a fresh task holding the request's five fields; no id, no project. */
  function ToEntity(r: TaskRequest): Task {
    Task(None, r.name, r.description, r.priority, r.status, r.dueDate, None)
  }

  /** `toDTO`: the task's fields, with the project reduced to its id. */
  function ToDTO(t: Task): TaskResponse {
    TaskResponse(t.id, t.name, t.description, t.priority, t.status, t.dueDate, t.project)
  }

  /**
   * Mapping a request to an entity and back agrees with the request on the
   * five copied fields and has neither an id nor a project id.
   */
  lemma ToDTOOfToEntity(r: TaskRequest)
    ensures var d := ToDTO(ToEntity(r));
      && d.name == r.name && d.description == r.description && d.priority == r.priority
      && d.status == r.status && d.dueDate == r.dueDate
      && d.id.None? && d.projectId.None?
  {
  }

  /** The request's project id is dropped: requests that differ only there give the same entity. */
  lemma ToEntityIgnoresProjectId(r: TaskRequest, p: Option<int>)
    ensures ToEntity(r.(projectId := p)) == ToEntity(r)
  {
  }

  /** A request is valid exactly when the entity made from it is, with the same violations. */
  lemma ToEntityViolations(r: TaskRequest, today: Date)
    ensures TaskViolations(ToEntity(r), today) == TaskRequestViolations(r, today)
    ensures TaskValid(ToEntity(r), today) <==> TaskRequestValid(r, today)
  {
  }

  /** `toDTO` loses nothing: distinct tasks give distinct responses. */
  lemma ToDTOInjective(a: Task, b: Task)
    requires ToDTO(a) == ToDTO(b)
    ensures a == b
  {
  }

  /** The response names the assigned project by id and is empty there for an unassigned task. */
  lemma ToDTOProjectId(t: Task)
    ensures t.project.None? ==> ToDTO(t).projectId.None?
    ensures t.project.Some? ==> ToDTO(t).projectId == Some(t.project.value)
  {
  }
}
