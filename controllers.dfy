/**
 * The sort and paging parameters of the two search endpoints
 * (`TaskController.searchTasks`, `ProjectController.searchProjects`): both read
 * `sort` the same way, build the `Pageable` and hand every filter to the
 * service unchanged.
 */
module Controllers {
  import opened Wrappers
  import opened Text
  import opened Model
  import opened Dto
  import opened Errors
  import opened Paging
  import TaskService
  import ProjectService
  import ExceptionHandler

  /** The `@RequestParam` defaults: `page = 0`, `size = 10`, `sort = id,asc`. */
  const DefaultPage: int := 0
  const DefaultSize: int := 10
  const DefaultSort: seq<string> := ["id", "asc"]

  /**
   * The sort direction and property read from the `sort` array: with exactly
   * two elements, the first names the property and the second is "desc" in
   * any case for a descending sort; any other length sorts by id ascending.
   */
  function ParseSort(sort: seq<string>): (r: (Direction, string))
    ensures r.0 == Desc <==> |sort| == 2 && EqualsIgnoreCase(sort[1], "desc")
    ensures |sort| == 2 ==> r.1 == sort[0]
    ensures |sort| != 2 ==> r == (Asc, "id")
  {
    var direction := if |sort| == 2 && EqualsIgnoreCase(sort[1], "desc") then Desc else Asc;
    var sortBy := if |sort| == 2 then sort[0] else "id";
    (direction, sortBy)
  }

  /**
   * `PageRequest.of(page, size, Sort.by(direction, sortBy))`: `Sort.by` is
   * evaluated first, so a blank property is reported before a bad page index
   * or size.
   */
  function Pageable(page: int, size: int, sort: seq<string>): (r: Result<PageRequest, string>)
    ensures r.Success? <==> HasText(ParseSort(sort).1) && page >= 0 && size >= 1
    ensures r.Success? ==> r.value == PageRequest(page, size, Sort(ParseSort(sort).0, ParseSort(sort).1))
    ensures !HasText(ParseSort(sort).1) ==> r == Failure("Property must not be null or empty")
  {
    var (direction, sortBy) := ParseSort(sort);
    match SortBy(direction, sortBy)
    case Failure(e) => Failure(e)
    case Success(s) => PageRequestOf(page, size, s)
  }

  /** The id property is not blank. */
  lemma IdHasText()
    ensures HasText("id")
  {
    assert !IsJavaWhitespace("id"[0]);
  }

  /** The defaults give the first ten rows sorted by id ascending. */
  lemma PageableDefaults()
    ensures Pageable(DefaultPage, DefaultSize, DefaultSort) == Success(PageRequest(0, 10, Sort(Asc, "id")))
  {
    IdHasText();
    assert !EqualsIgnoreCase("asc", "desc") by {
      assert LowerChar('a') != LowerChar('d');
    }
  }

  /** Any sort array of another length, a single field name among them, is id ascending. */
  lemma PageableFallsBackToId(page: int, size: int, sort: seq<string>)
    requires |sort| != 2 && page >= 0 && size >= 1
    ensures Pageable(page, size, sort) == Success(PageRequest(page, size, Sort(Asc, "id")))
  {
    IdHasText();
  }

  /** "DESC", "Desc" and "desc" all sort descending; anything else sorts ascending. */
  lemma ParseSortDirection(field: string, dir: string)
    ensures ParseSort([field, dir]) == (if EqualsIgnoreCase(dir, "desc") then Desc else Asc, field)
    ensures ParseSort([field, "DESC"]).0 == Desc && ParseSort([field, "Desc"]).0 == Desc
  {
    assert EqualsIgnoreCase("DESC", "desc") && EqualsIgnoreCase("Desc", "desc");
  }

  /** The exception a rejected `Pageable` raises, answered by the global handler. */
  function PageableError(e: string): Raised {
    IllegalArgumentException(Some(e))
  }

  /**
   * `TaskController.searchTasks` over the table `rows` in the engine's order
   * for the requested sort: the criteria reach the service as given, and
   * page, size and the parsed sort form its `Pageable`.
   */
  function SearchTasks(rows: seq<Task>, c: TaskService.TaskCriteria, page: int, size: int, sort: seq<string>)
    : (r: Result<Page<TaskResponse>, Raised>)
    ensures r.Success? <==> Pageable(page, size, sort).Success?
    ensures r.Success? ==> r.value == TaskService.SearchPage(rows, c, Pageable(page, size, sort).value)
    ensures r.Failure? ==> r.error == PageableError(Pageable(page, size, sort).error)
  {
    match Pageable(page, size, sort)
    case Failure(e) => Failure(PageableError(e))
    case Success(pr) => Success(TaskService.SearchPage(rows, c, pr))
  }

  /** `ProjectController.searchProjects`, the same way over the projects table. */
  function SearchProjects(rows: seq<Project>, c: ProjectService.ProjectCriteria, page: int, size: int, sort: seq<string>)
    : (r: Result<Page<ProjectResponse>, Raised>)
    ensures r.Success? <==> Pageable(page, size, sort).Success?
    ensures r.Success? ==> r.value == ProjectService.SearchPage(rows, c, Pageable(page, size, sort).value)
    ensures r.Failure? ==> r.error == PageableError(Pageable(page, size, sort).error)
  {
    match Pageable(page, size, sort)
    case Failure(e) => Failure(PageableError(e))
    case Success(pr) => Success(ProjectService.SearchPage(rows, c, pr))
  }

  /**
   * With the defaults a project search returns the first page of ten, sorted
   * by id ascending, of the projects that match the criteria as given.
   */
  lemma SearchProjectsDefaults(rows: seq<Project>, c: ProjectService.ProjectCriteria)
    ensures SearchProjects(rows, c, DefaultPage, DefaultSize, DefaultSort)
      == Success(ProjectService.SearchPage(rows, c, PageRequest(0, 10, Sort(Asc, "id"))))
  {
    PageableDefaults();
  }

  /** A page the task search returns has the requested number and size. */
  lemma SearchTasksPageShape(rows: seq<Task>, c: TaskService.TaskCriteria, page: int, size: int, sort: seq<string>)
    requires SearchTasks(rows, c, page, size, sort).Success?
    ensures SearchTasks(rows, c, page, size, sort).value.number == page
    ensures SearchTasks(rows, c, page, size, sort).value.size == size
    ensures |SearchTasks(rows, c, page, size, sort).value.content| <= size
  {
  }

  /** A blank sort property is a 400 carrying Spring's message, whatever the page and size. */
  lemma BlankSortPropertyIsBadRequest(rows: seq<Task>, c: TaskService.TaskCriteria, page: int, size: int, field: string, dir: string)
    requires !HasText(field)
    ensures SearchTasks(rows, c, page, size, [field, dir]).Failure?
    ensures ExceptionHandler.Handle(SearchTasks(rows, c, page, size, [field, dir]).error)
      == ExceptionHandler.Response(400, "Property must not be null or empty")
  {
  }
}
