/**
 * `TaskService`: task CRUD over the task repository, and the search that
 * builds one conjunctive predicate from the optional criteria.
 */
module TaskService {
  import opened Wrappers
  import opened Text
  import opened Dates
  import opened Model
  import opened Dto
  import opened Errors
  import opened Paging
  import opened Repository
  import TaskMapper
  import ProjectMapper
  import Spec = TaskSpecification

  // ---------------------------------------------------------------------------
  // Search
  // ---------------------------------------------------------------------------

  /** The eight optional filters of `searchTasks`; `None` is a null parameter. */
  datatype TaskCriteria = TaskCriteria(
    status: Option<Status>,
    priority: Option<Priority>,
    projectId: Option<int>,
    dueDateFrom: Option<Date>,
    dueDateTo: Option<Date>,
    search: Option<string>,
    name: Option<string>,
    id: Option<int>)

  /** Every filter null. */
  const NoCriteria: TaskCriteria := TaskCriteria(None, None, None, None, None, None, None, None)

  /** `s != null && !s.trim().isEmpty()`: a text filter that takes part in the search. */
  predicate TextGiven(s: Option<string>) {
    s.Some? && !IsBlank(s.value)
  }

  /**
   * The reference meaning of a search: a task matches when it satisfies every
   * criterion that is given. `search` asks for the keyword in the name or in
   * the description; the keyword is used as given, untrimmed.
   */
  predicate MatchesCriteria(c: TaskCriteria, t: Task) {
    && (c.status.Some? ==> Spec.HasStatus(c.status.value, t))
    && (c.priority.Some? ==> Spec.HasPriority(c.priority.value, t))
    && (c.projectId.Some? ==> Spec.BelongsToProject(c.projectId.value, t))
    && (c.dueDateFrom.Some? ==> Spec.DueDateAfterOrEqual(c.dueDateFrom.value, t))
    && (c.dueDateTo.Some? ==> Spec.DueDateBeforeOrEqual(c.dueDateTo.value, t))
    && (TextGiven(c.search) ==> Spec.NameContains(c.search.value, t) || Spec.DescriptionContains(c.search.value, t))
    && (TextGiven(c.name) ==> Spec.NameContains(c.name.value, t))
    && (c.id.Some? ==> Spec.HasId(c.id.value, t))
  }

  /** `Specification.where(null)`: accepts every task. */
  function Always(): Task -> bool {
    t => true
  }

  /** `a.and(b)`. */
  function And(a: Task -> bool, b: Task -> bool): (r: Task -> bool)
    ensures forall t :: r(t) == (a(t) && b(t))
  {
    t => a(t) && b(t)
  }

  /** `a.or(b)`. */
  function Or(a: Task -> bool, b: Task -> bool): (r: Task -> bool)
    ensures forall t :: r(t) == (a(t) || b(t))
  {
    t => a(t) || b(t)
  }

  /** `spec = spec.and(next)` when the criterion is present, `spec` unchanged otherwise. */
  function AndIf(given: bool, spec: Task -> bool, next: Task -> bool): (r: Task -> bool)
    ensures forall t :: r(t) == (spec(t) && (given ==> next(t)))
  {
    if given then And(spec, next) else spec
  }

  /** The predicate `searchTasks` accumulates, criterion by criterion, in the order of the code. */
  function BuildSpec(c: TaskCriteria): Task -> bool {
    var status := if c.status.Some? then c.status.value else Todo;
    var priority := if c.priority.Some? then c.priority.value else Low;
    var projectId := if c.projectId.Some? then c.projectId.value else 0;
    var from := if c.dueDateFrom.Some? then c.dueDateFrom.value else Date(0, 1, 1);
    var to := if c.dueDateTo.Some? then c.dueDateTo.value else Date(0, 1, 1);
    var search := if c.search.Some? then c.search.value else "";
    var name := if c.name.Some? then c.name.value else "";
    var id := if c.id.Some? then c.id.value else 0;
    var s1 := AndIf(c.status.Some?, Always(), t => Spec.HasStatus(status, t));
    var s2 := AndIf(c.priority.Some?, s1, t => Spec.HasPriority(priority, t));
    var s3 := AndIf(c.projectId.Some?, s2, t => Spec.BelongsToProject(projectId, t));
    var s4 := AndIf(c.dueDateFrom.Some?, s3, t => Spec.DueDateAfterOrEqual(from, t));
    var s5 := AndIf(c.dueDateTo.Some?, s4, t => Spec.DueDateBeforeOrEqual(to, t));
    var s6 := AndIf(TextGiven(c.search), s5,
      Or(t => Spec.NameContains(search, t), t => Spec.DescriptionContains(search, t)));
    var s7 := AndIf(TextGiven(c.name), s6, t => Spec.NameContains(name, t));
    AndIf(c.id.Some?, s7, t => Spec.HasId(id, t))
  }

  /** The accumulated predicate accepts a task exactly when the task meets every given criterion. */
  lemma BuildSpecMeaning(c: TaskCriteria, t: Task)
    ensures BuildSpec(c)(t) <==> MatchesCriteria(c, t)
  {
  }

  /**
   * `searchTasks` over the table `rows`, listed in the order the storage
   * engine returns for the request's sort: the matching tasks of the
   * requested page, as responses.
   */
  function SearchPage(rows: seq<Task>, c: TaskCriteria, pr: PageRequest): Page<TaskResponse>
    requires pr.page >= 0 && pr.size >= 1
  {
    MapPage(FindAll(rows, BuildSpec(c), pr), TaskMapper.ToDTO)
  }

  /**
   * A page holds the responses of the matching tasks from position
   * `page * size` on, at most `size` of them, and reports how many tasks match.
   */
  lemma SearchPageContents(rows: seq<Task>, c: TaskCriteria, pr: PageRequest)
    requires pr.page >= 0 && pr.size >= 1
    ensures var pg := SearchPage(rows, c, pr);
      && pg.number == pr.page && pg.size == pr.size && |pg.content| <= pr.size
      && pg.totalElements == |Filter(rows, BuildSpec(c))|
      && forall i :: 0 <= i < |pg.content| ==>
           pg.content[i] == TaskMapper.ToDTO(Filter(rows, BuildSpec(c))[pr.page * pr.size + i])
  {
  }

  /** Every task a page shows is a stored task that meets all the given criteria. */
  lemma SearchPageSound(rows: seq<Task>, c: TaskCriteria, pr: PageRequest, r: TaskResponse)
    requires pr.page >= 0 && pr.size >= 1
    requires r in SearchPage(rows, c, pr).content
    ensures exists t :: t in rows && MatchesCriteria(c, t) && TaskMapper.ToDTO(t) == r
  {
    var found := FindAll(rows, BuildSpec(c), pr);
    var pg := SearchPage(rows, c, pr);
    var i :| 0 <= i < |pg.content| && pg.content[i] == r;
    var t := found.content[i];
    assert t in found.content;
    FindAllSound(rows, BuildSpec(c), pr, t);
  }

  /** With every filter null, nothing is filtered: the pages slice the whole table. */
  lemma SearchNoCriteria(rows: seq<Task>, pr: PageRequest)
    requires pr.page >= 0 && pr.size >= 1
    ensures SearchPage(rows, NoCriteria, pr).totalElements == |rows|
    ensures forall i :: 0 <= i < |SearchPage(rows, NoCriteria, pr).content| ==>
      SearchPage(rows, NoCriteria, pr).content[i] == TaskMapper.ToDTO(rows[pr.page * pr.size + i])
  {
    FilterAllPass(rows, BuildSpec(NoCriteria));
  }

  /** A blank `search` or `name` gives the same result as leaving it null. */
  lemma SearchBlankTextIsAbsent(rows: seq<Task>, c: TaskCriteria, pr: PageRequest, s: string)
    requires pr.page >= 0 && pr.size >= 1
    requires IsBlank(s)
    ensures SearchPage(rows, c.(search := Some(s)), pr) == SearchPage(rows, c.(search := None), pr)
    ensures SearchPage(rows, c.(name := Some(s)), pr) == SearchPage(rows, c.(name := None), pr)
  {
    SameSpecSamePage(rows, c.(search := Some(s)), c.(search := None), pr);
    SameSpecSamePage(rows, c.(name := Some(s)), c.(name := None), pr);
  }

  /** Criteria that accept the same tasks give the same page. */
  lemma SameSpecSamePage(rows: seq<Task>, c1: TaskCriteria, c2: TaskCriteria, pr: PageRequest)
    requires pr.page >= 0 && pr.size >= 1
    requires forall t :: MatchesCriteria(c1, t) == MatchesCriteria(c2, t)
    ensures SearchPage(rows, c1, pr) == SearchPage(rows, c2, pr)
  {
    forall t ensures BuildSpec(c1)(t) == BuildSpec(c2)(t) {
      BuildSpecMeaning(c1, t);
      BuildSpecMeaning(c2, t);
    }
    FilterSame(rows, BuildSpec(c1), BuildSpec(c2));
  }

  /**
   * `search` matches a name or a description, and the keyword is not trimmed:
   * " bug" finds neither a task named "bug" nor one described as "bug".
   */
  lemma SearchKeywordUntrimmed(t: Task)
    requires t.name == Some("bug") && (t.description.None? || t.description == Some("bug"))
    ensures !BuildSpec(NoCriteria.(search := Some(" bug")))(t)
  {
    assert !IsBlank(" bug") by {
      assert !AllTrimmable(" bug") by { assert !IsTrimmable(" bug"[1]); }
    }
    ContainsIff(ToLower("bug"), ToLower(" bug"));
  }

  /** A due-date range whose start lies after its end matches nothing: an empty page, not an error. */
  lemma SearchInvertedDateRange(rows: seq<Task>, c: TaskCriteria, pr: PageRequest)
    requires pr.page >= 0 && pr.size >= 1
    requires c.dueDateFrom.Some? && c.dueDateTo.Some? && IsBefore(c.dueDateTo.value, c.dueDateFrom.value)
    ensures SearchPage(rows, c, pr).content == [] && SearchPage(rows, c, pr).totalElements == 0
  {
    forall t: Task ensures !BuildSpec(c)(t) {
      Spec.DateBounds(c.dueDateFrom.value, c.dueDateTo.value, t);
    }
    FindAllNoMatch(rows, BuildSpec(c), pr);
  }

  // ---------------------------------------------------------------------------
  // CRUD
  // ---------------------------------------------------------------------------

  /** The setters `updateTask` applies to the loaded task: five fields from the request, id and project kept. */
  function ApplyRequest(t: Task, dto: TaskRequest): (r: Task)
    ensures r.id == t.id && r.project == t.project
    ensures r.name == dto.name && r.description == dto.description && r.priority == dto.priority
      && r.status == dto.status && r.dueDate == dto.dueDate
  {
    t.(name := dto.name, description := dto.description, priority := dto.priority,
       status := dto.status, dueDate := dto.dueDate)
  }

  /**
   * Updating ignores the request's project id, and updating twice with the
   * same request is updating once.
   */
  lemma ApplyRequestProperties(t: Task, dto: TaskRequest, p: Option<int>)
    ensures ApplyRequest(t, dto.(projectId := p)) == ApplyRequest(t, dto)
    ensures ApplyRequest(ApplyRequest(t, dto), dto) == ApplyRequest(t, dto)
    ensures ApplyRequest(t, dto) == TaskMapper.ToEntity(dto).(id := t.id, project := t.project)
  {
  }

  /** `TaskService`, holding its repository. */
  class TaskService {
    const taskRepository: TaskRepository

    constructor (repository: TaskRepository)
      ensures taskRepository == repository
    {
      taskRepository := repository;
    }

    /**
     * `createTask`: the request's five fields are stored as a new task under
     * the next id, with no project; the response carries that id.
     */
    method CreateTask(dto: TaskRequest) returns (r: TaskResponse)
      requires taskRepository.Valid()
      modifies taskRepository
      ensures taskRepository.Valid()
      ensures var saved := TaskMapper.ToEntity(dto).(id := Some(old(taskRepository.nextId)));
        && taskRepository.rows == old(taskRepository.rows)[old(taskRepository.nextId) := saved]
        && taskRepository.nextId == old(taskRepository.nextId) + 1
        && r == TaskMapper.ToDTO(saved)
      ensures r.id.Some? && r.id.value !in old(taskRepository.rows) && r.projectId.None?
    {
      var task := TaskMapper.ToEntity(dto);
      var saved := taskRepository.Save(task);
      r := TaskMapper.ToDTO(saved);
    }

    /** `getAllTasks`: every stored task as a response, in the order `findAll()` lists them. */
    method GetAllTasks() returns (r: seq<TaskResponse>)
      ensures |r| == |taskRepository.FindAll()|
      ensures forall i :: 0 <= i < |r| ==> r[i] == TaskMapper.ToDTO(taskRepository.FindAll()[i])
    {
      r := ProjectMapper.TasksToDTO(taskRepository.FindAll());
    }

    /** `getTaskById`: the stored task with that id, or TaskNotFound. */
    method GetTaskById(id: int) returns (r: Result<TaskResponse, ServiceError>)
      ensures id in taskRepository.rows ==> r == Success(TaskMapper.ToDTO(taskRepository.rows[id]))
      ensures id !in taskRepository.rows ==> r == Failure(TaskNotFound(id))
    {
      var found := taskRepository.FindById(id);
      if found.None? {
        return Failure(TaskNotFound(id));
      }
      r := Success(TaskMapper.ToDTO(found.value));
    }

    /**
     * `updateTask`: the stored task takes the request's five fields and keeps
     * its id and project; a missing id is TaskNotFound and nothing is saved.
     */
    method UpdateTask(id: int, dto: TaskRequest) returns (r: Result<TaskResponse, ServiceError>)
      requires taskRepository.Valid()
      modifies taskRepository
      ensures taskRepository.Valid()
      ensures id !in old(taskRepository.rows) ==>
        r == Failure(TaskNotFound(id))
        && taskRepository.rows == old(taskRepository.rows) && taskRepository.nextId == old(taskRepository.nextId)
      ensures id in old(taskRepository.rows) ==>
        var updated := ApplyRequest(old(taskRepository.rows)[id], dto);
        && taskRepository.rows == old(taskRepository.rows)[id := updated]
        && taskRepository.nextId == old(taskRepository.nextId)
        && r == Success(TaskMapper.ToDTO(updated))
    {
      var found := taskRepository.FindById(id);
      if found.None? {
        return Failure(TaskNotFound(id));
      }
      var task := ApplyRequest(found.value, dto);
      var saved := taskRepository.Save(task);
      r := Success(TaskMapper.ToDTO(saved));
    }

    /** `deleteTask`: removes exactly the task with that id, or is TaskNotFound and removes nothing. */
    method DeleteTask(id: int) returns (err: Option<ServiceError>)
      requires taskRepository.Valid()
      modifies taskRepository
      ensures taskRepository.Valid() && taskRepository.nextId == old(taskRepository.nextId)
      ensures id !in old(taskRepository.rows) ==>
        err == Some(TaskNotFound(id)) && taskRepository.rows == old(taskRepository.rows)
      ensures id in old(taskRepository.rows) ==>
        err.None? && taskRepository.rows == old(taskRepository.rows) - {id}
    {
      if id !in taskRepository.rows {
        return Some(TaskNotFound(id));
      }
      taskRepository.DeleteById(id);
      err := None;
    }
  }
}
