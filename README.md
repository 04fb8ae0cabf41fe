# TaskManager in Dafny

A model of the TaskManager system: a Spring Boot server that stores tasks and
projects, and a console client that talks to it over HTTP.

On the server side the model covers:

- the two entities and their constraint annotations (`Task`, `Project`, and the
  `TaskRequestDTO` request body);
- the mappers to response records;
- the search predicates of `TaskSpecification` and `ProjectSpecification`, and
  the conjunctive search `TaskService.searchTasks` / `ProjectService.searchProjects`
  builds from the optional criteria;
- task and project CRUD over the two repositories, with the typed not-found
  failures;
- `addTaskToProject` / `removeTaskFromProject`, which link and unlink a task
  and a project;
- the sort and paging parameters of the two search endpoints;
- `GlobalExceptionHandler`, which turns each exception into a status and a
  plain-text body.

On the client side it covers `BaseApiService.buildUrlWithQuery` (with the
`application/x-www-form-urlencoded` value encoding of `URLEncoder`), the status
branch of `handleResponse`, and the parts of `TaskConsoleHandler` with logic in
them: the page-by-page search loop, the edit helpers that merge console input
into a `TaskDto`, and the due-date prompt.

How the model is built:

- Entities that the code only computes with are datatypes, and rules are
  functions and lemmas.
- The repositories (`Repository.TaskRepository`, `Repository.ProjectRepository`)
  are classes whose rows are a `map` keyed by id, with the IDENTITY counter that
  numbers new rows. The services (`TaskService.TaskService`,
  `ProjectService.ProjectService`) are classes whose methods change those rows
  and state the whole new state in their contracts.
- A task refers to its project by the project's id. The project's task list is
  the inverse side of that foreign key: `findById` loads it from the stored
  tasks (`Repository.TasksOf`).
- The linking operations change the task's key. They return the loaded project
  as they left it in memory: with the task appended, or with its first entry
  removed. The model proves that after an unlink this in-memory project is the
  project as it would load again (`ProjectService.UnassignMatchesReload`).
- The client's loops are methods with loops (`TaskConsoleHandler.SearchRounds`,
  `TaskConsoleHandler.PromptForValidDate`, `BaseApiService.AppendPairs`). Each is
  proved equal to a recursive function, and the properties are proved about
  that function.
- The client's `TaskDto` is a class, and its `updateTask*` helpers are methods
  that change its fields.

Supporting modules:

- `Text`: the `java.lang.String` operations the code uses: `trim`, case mapping,
  `equalsIgnoreCase`, `contains`, UTF-16 `length`, `indexOf`, join and split.
- `Decimal`: `Long.toString` (ASCII digits) and `Long.parseLong` (decimal digits of every script, as `Character.digit` reads them).
- `Dates`: `LocalDate` order, `LocalDate.parse` and `LocalDate.toString`.
- `Validation`: the Bean Validation constraints.
- `Paging`: Spring Data's `Sort`, `PageRequest`, `Page` and
  `findAll(spec, pageable)`.

Paths in the table are relative to the repository root.

## Model

| member | source | states |
|---|---|---|
| Model.ParsePriority | Client/task-manager-client-console/src/main/java/pl/kul/taskmanagerclient/console/TaskConsoleHandler.java:268 | `Priority.valueOf` gives a constant exactly when the text is that constant's name; otherwise no constant has that name |
| Model.ParseStatus | Client/task-manager-client-console/src/main/java/pl/kul/taskmanagerclient/console/TaskConsoleHandler.java:279 | `Status.valueOf` gives a constant exactly when the text is that constant's name; otherwise no constant has that name |
| Model.ParseEnumNames | Client/task-manager-client-console/src/main/java/pl/kul/taskmanagerclient/console/TaskConsoleHandler.java:264-284 | every priority and status name parses back to its constant |
| Model.TaskViolations | Server/task-manager-server/src/main/java/pl/kul/taskmanager/model/Task.java:25-41 | a task has no violation exactly when its name is present with Java length 3..100, its description is absent or at most 500 long, priority and status are present, and the due date is absent or not before today; every violation names one of the five constrained fields |
| Model.TaskShortName | Server/task-manager-server/src/test/java/pl/kul/taskmanager/model/TaskTest.java:49-60 | a task whose only fault is a two-char name reports exactly the name-size message |
| Model.TaskOptionalFields | Server/task-manager-server/src/main/java/pl/kul/taskmanager/model/Task.java:29-45 | clearing the description, the due date and the project keeps a valid task valid |
| Model.ProjectViolations | Server/task-manager-server/src/test/java/pl/kul/taskmanager/model/ProjectTest.java:45-70 | a project has no violation exactly when its name is present with length 3..100 and its description is absent or at most 500 long; violations name only those fields |
| Validation.NotNullCheck | Server/task-manager-server/src/main/java/pl/kul/taskmanager/model/Task.java:32-38 | `@NotNull` reports one violation with the default message exactly when the value is null |
| Validation.SizeCheck | Server/task-manager-server/src/main/java/pl/kul/taskmanager/model/Task.java:26-30 | `@Size` reports one violation with the declared message exactly when a present string's UTF-16 length is outside the bounds |
| Validation.FutureOrPresentCheck | Server/task-manager-server/src/main/java/pl/kul/taskmanager/model/Task.java:40-41 | `@FutureOrPresent` reports one violation with the declared message exactly when a present date is before today |
| Validation.FutureOrPresentBoundary | Server/task-manager-server/src/test/java/pl/kul/taskmanager/model/TaskTest.java:62-73 | today is accepted, any earlier day is rejected, any later day is accepted |
| Dates.IsBeforeStrictTotal | Client/task-manager-client-console/src/main/java/pl/kul/taskmanagerclient/console/TaskConsoleHandler.java:225 | `isBefore` is irreflexive, asymmetric, transitive and total, so "not before" means "on or after" |
| Dates.ParseIsoDate | Client/task-manager-client-console/src/main/java/pl/kul/taskmanagerclient/console/TaskConsoleHandler.java:224 | `LocalDate.parse` yields only real calendar dates |
| Dates.ParseFormat | Client/task-manager-client-console/src/main/java/pl/kul/taskmanagerclient/console/TaskConsoleHandler.java:224 | a date printed as `yyyy-MM-dd` parses back to itself |
| Dates.FormatParse | Client/task-manager-client-console/src/main/java/pl/kul/taskmanagerclient/console/TaskConsoleHandler.java:224 | every text the parser accepts is the printed form of the date it yields |
| Decimal.RunDigitMeaning | Client/task-manager-client-console/src/main/java/pl/kul/taskmanagerclient/console/TaskConsoleHandler.java:295 | `Character.digit(ch, 10)`, which `Long.parseLong` applies to each char, is a digit exactly when the char lies in one of the runs of ten decimal digits, and its value is the offset from that run's zero |
| Decimal.JavaDigitInRun | Client/task-manager-client-console/src/main/java/pl/kul/taskmanagerclient/console/TaskConsoleHandler.java:295 | any char of the k-th Unicode digit run has its offset from that run's zero as its value |
| Decimal.JavaDigitBetweenRuns | Client/task-manager-client-console/src/main/java/pl/kul/taskmanagerclient/console/TaskConsoleHandler.java:295 | a char between two digit runs, or past the last one, is no digit |
| Decimal.IntToString | Server/task-manager-server/src/main/java/pl/kul/taskmanager/exception/TaskNotFoundException.java:5 | `Long.toString` starts with a minus sign exactly for negative numbers and is all digits otherwise |
| Decimal.ParseLong | Client/task-manager-client-console/src/main/java/pl/kul/taskmanagerclient/console/TaskConsoleHandler.java:295 | `Long.parseLong` only yields values in the 64-bit range; it takes an optional sign and then decimal digits of any script in the Basic Multilingual Plane, read by `Character.digit` |
| Decimal.ParseLongToString | Client/task-manager-client-console/src/main/java/pl/kul/taskmanagerclient/console/TaskConsoleHandler.java:295 | parsing what `Long.toString` printed gives back the number |
| Decimal.ParseScriptDigits | Client/task-manager-client-console/src/main/java/pl/kul/taskmanagerclient/console/TaskConsoleHandler.java:295 | Arabic-Indic, Devanagari and fullwidth digits parse like ASCII ones, with either sign; a sign alone, a trailing letter and a supplementary-plane digit are rejected |
| Decimal.IntToStringInjective | Server/task-manager-server/src/main/java/pl/kul/taskmanager/exception/TaskNotFoundException.java:4-6 | different `long` values print differently |
| Text.TrimFacts | Client/task-manager-client-console/src/main/java/pl/kul/taskmanagerclient/console/BaseConsoleHandler.java:11-14 | `trim()` is empty exactly when every char is at most U+0020; otherwise it starts and ends with a kept char and occurs in the input where the leading blanks end |
| Errors.Raise | Server/task-manager-server/src/main/java/pl/kul/taskmanager/service/ProjectService.java:106-114 | a missing task is raised as TaskNotFoundException, a missing project as ProjectNotFoundException, and an invalid unassignment as IllegalArgumentException with its fixed message |
| Errors.NotFoundMessagesDistinguish | Server/task-manager-server/src/main/java/pl/kul/taskmanager/exception/TaskNotFoundException.java:4-6 | within the `long` range, different ids give different not-found messages, and a task message never equals a project message |
| Errors.NotFoundMessageOfOne | Server/task-manager-server/src/test/java/pl/kul/taskmanager/service/ProjectServiceTest.java:106 | the messages for id 1 are "Task not found with ID: 1" and "Project not found with ID: 1" |
| ExceptionHandler.FieldErrorTexts | Server/task-manager-server/src/main/java/pl/kul/taskmanager/exception/GlobalExceptionHandler.java:30-31 | one "field: message" text per field error, in order |
| ExceptionHandler.ReduceIsJoin | Server/task-manager-server/src/main/java/pl/kul/taskmanager/exception/GlobalExceptionHandler.java:32-33 | the `reduce` is empty exactly for no parts, and otherwise is the parts joined by ", " |
| ExceptionHandler.Handle | Server/task-manager-server/src/main/java/pl/kul/taskmanager/exception/GlobalExceptionHandler.java:12-41 | the five `@ExceptionHandler` methods as one dispatch on the exception; its meaning is stated by the `Handle*` lemmas below |
| ExceptionHandler.HandleServiceError | Server/task-manager-server/src/main/java/pl/kul/taskmanager/exception/GlobalExceptionHandler.java:12-41 | a missing task or project is a 404 whose body is exactly its message; an invalid unassignment is a 400 with its message; every service failure is a 4xx |
| ExceptionHandler.HandleValidation | Server/task-manager-server/src/main/java/pl/kul/taskmanager/exception/GlobalExceptionHandler.java:28-36 | a validation failure is a 400 whose body is the "field: message" texts joined by ", ", or "Invalid input data" when there are none |
| ExceptionHandler.HandleTwoFieldErrors | Server/task-manager-server/src/test/java/pl/kul/taskmanager/exception/GlobalExceptionHandlerTest.java:69-88 | two field errors give "f1: m1, f2: m2" |
| ExceptionHandler.HandleStatusClasses | Server/task-manager-server/src/main/java/pl/kul/taskmanager/exception/GlobalExceptionHandler.java:12-41 | only unnamed exceptions become a 500, with the "An unexpected error occurred: " prefix; exactly the two not-found exceptions become a 404 |
| Paging.SortBy | Server/task-manager-server/src/main/java/pl/kul/taskmanager/controller/TaskController.java:83 | `Sort.by` succeeds exactly for a property with text, and otherwise fails with Spring's message |
| Paging.PageRequestOf | Server/task-manager-server/src/main/java/pl/kul/taskmanager/controller/TaskController.java:83 | `PageRequest.of` succeeds exactly for page >= 0 and size >= 1, and otherwise reports the page index first, then the size |
| Paging.Filter | Server/task-manager-server/src/main/java/pl/kul/taskmanager/service/TaskService.java:109 | the filtered rows are exactly the rows the predicate accepts, no more than there were |
| Paging.FindAll | Server/task-manager-server/src/main/java/pl/kul/taskmanager/service/TaskService.java:109 | a page keeps the requested number and size, counts all matching rows, and holds at most `size` of them, taken from position `page * size` on |
| Paging.MapPage | Server/task-manager-server/src/main/java/pl/kul/taskmanager/service/TaskService.java:110 | `Page.map` maps the content element by element and keeps number, size and total |
| Paging.FilterNone | Server/task-manager-server/src/main/java/pl/kul/taskmanager/service/TaskService.java:109 | a predicate no row satisfies filters out every row |
| Paging.FindAllNoMatch | Server/task-manager-server/src/main/java/pl/kul/taskmanager/service/TaskService.java:109 | a predicate nothing satisfies gives an empty page with total 0 |
| Paging.FindAllSound | Server/task-manager-server/src/main/java/pl/kul/taskmanager/service/TaskService.java:109 | every row of a page is a stored row the predicate accepts |
| Paging.FindAllEmpty | Server/task-manager-server/src/main/java/pl/kul/taskmanager/service/TaskService.java:109 | a page is empty exactly when it starts at or after the last matching row |
| TaskSpecification.HasStatus | Server/task-manager-server/src/main/java/pl/kul/taskmanager/specification/TaskSpecification.java:13-16 | `status = ?`; a NULL status matches no status (`TaskService.BuildSpecMeaning` states what the conjunction of all the predicates accepts) |
| TaskSpecification.HasPriority | Server/task-manager-server/src/main/java/pl/kul/taskmanager/specification/TaskSpecification.java:18-21 | `priority = ?`; a NULL priority matches no priority (meaning in `TaskService.BuildSpecMeaning`) |
| TaskSpecification.BelongsToProject | Server/task-manager-server/src/main/java/pl/kul/taskmanager/specification/TaskSpecification.java:23-26 | the LEFT-joined project's id equals the argument; properties in `TaskSpecification.NullColumnsNeverMatch` |
| TaskSpecification.DueDateAfterOrEqual | Server/task-manager-server/src/main/java/pl/kul/taskmanager/specification/TaskSpecification.java:28-31 | `due_date >= ?`; properties in `TaskSpecification.DateBounds` and `TaskSpecification.NullColumnsNeverMatch` |
| TaskSpecification.DueDateBeforeOrEqual | Server/task-manager-server/src/main/java/pl/kul/taskmanager/specification/TaskSpecification.java:33-36 | `due_date <= ?`; properties in `TaskSpecification.DateBounds` and `TaskSpecification.NullColumnsNeverMatch` |
| TaskSpecification.NameContains | Server/task-manager-server/src/main/java/pl/kul/taskmanager/specification/TaskSpecification.java:38-41 | `lower(name) LIKE %lower(keyword)%`; meaning in `TaskSpecification.ContainsIffOccurs` |
| TaskSpecification.DescriptionContains | Server/task-manager-server/src/main/java/pl/kul/taskmanager/specification/TaskSpecification.java:43-46 | the same test on the description; meaning in `TaskSpecification.ContainsIffOccurs` |
| TaskSpecification.HasId | Server/task-manager-server/src/main/java/pl/kul/taskmanager/specification/TaskSpecification.java:48-51 | `id = ?` (meaning in `TaskService.BuildSpecMeaning`) |
| TaskSpecification.ContainsIffOccurs | Server/task-manager-server/src/main/java/pl/kul/taskmanager/specification/TaskSpecification.java:38-46 | nameContains and descriptionContains hold exactly when the field is present and the lowered keyword occurs in the lowered text |
| TaskSpecification.ContainsIgnoresCase | Server/task-manager-server/src/main/java/pl/kul/taskmanager/specification/TaskSpecification.java:38-46 | the case the keyword is typed in does not change either containment test |
| TaskSpecification.NameContainsSubstring | Server/task-manager-server/src/main/java/pl/kul/taskmanager/specification/TaskSpecification.java:38-41 | a keyword that occurs literally in the name matches |
| TaskSpecification.NullColumnsNeverMatch | Server/task-manager-server/src/main/java/pl/kul/taskmanager/specification/TaskSpecification.java:23-46 | an absent due date matches neither date bound, an absent description never matches, and an unassigned task belongs to no project |
| TaskSpecification.DateBounds | Server/task-manager-server/src/main/java/pl/kul/taskmanager/specification/TaskSpecification.java:28-36 | both date bounds are inclusive, and a range that starts after its end holds no date |
| ProjectSpecification.NameContains | Server/task-manager-server/src/main/java/pl/kul/taskmanager/specification/ProjectSpecification.java:8-11 | `lower(name) LIKE %lower(keyword)%`; meaning in `ProjectSpecification.ContainsIffOccurs` |
| ProjectSpecification.DescriptionContains | Server/task-manager-server/src/main/java/pl/kul/taskmanager/specification/ProjectSpecification.java:13-16 | the same test on the description; meaning in `ProjectSpecification.ContainsIffOccurs` |
| ProjectSpecification.HasId | Server/task-manager-server/src/main/java/pl/kul/taskmanager/specification/ProjectSpecification.java:19-22 | `id = ?`; at most one of distinct-id projects passes (`ProjectService.FilterByIdAtMostOne`) |
| ProjectSpecification.ContainsIffOccurs | Server/task-manager-server/src/main/java/pl/kul/taskmanager/specification/ProjectSpecification.java:8-16 | the project's name and description tests hold exactly when the field is present and the lowered keyword occurs in the lowered text |
| ProjectSpecification.KeywordCaseNotSpace | Server/task-manager-server/src/main/java/pl/kul/taskmanager/specification/ProjectSpecification.java:8-16 | the keyword's case does not matter, an absent description never matches, and the keyword is not trimmed (" abc" does not find "abc") |
| TaskMapper.ToEntity | Server/task-manager-server/src/main/java/pl/kul/taskmanager/mapper/TaskMapper.java:9-17 | a new task with the request's five fields, no id and no project; properties in `TaskMapper.ToDTOOfToEntity`, `TaskMapper.ToEntityIgnoresProjectId` and `TaskMapper.ToEntityViolations` |
| TaskMapper.ToDTO | Server/task-manager-server/src/main/java/pl/kul/taskmanager/mapper/TaskMapper.java:19-29 | the task's fields with the project reduced to its id; properties in `TaskMapper.ToDTOInjective` and `TaskMapper.ToDTOProjectId` |
| TaskMapper.ToDTOOfToEntity | Server/task-manager-server/src/main/java/pl/kul/taskmanager/mapper/TaskMapper.java:9-29 | mapping a request to an entity and then to a response keeps the five copied fields and leaves id and projectId absent |
| TaskMapper.ToEntityIgnoresProjectId | Server/task-manager-server/src/main/java/pl/kul/taskmanager/mapper/TaskMapper.java:9-17 | the request's projectId does not reach the entity |
| TaskMapper.ToEntityViolations | Server/task-manager-server/src/main/java/pl/kul/taskmanager/dto/TaskRequestDTO.java:17-36 | a request and the entity made from it report the same violations, so one is valid exactly when the other is |
| TaskMapper.ToDTOInjective | Server/task-manager-server/src/main/java/pl/kul/taskmanager/mapper/TaskMapper.java:19-29 | `toDTO` loses nothing: equal responses come from equal tasks |
| TaskMapper.ToDTOProjectId | Server/task-manager-server/src/main/java/pl/kul/taskmanager/mapper/TaskMapper.java:27 | the response carries the assigned project's id, and nothing for an unassigned task |
| ProjectMapper.ToEntity | Server/task-manager-server/src/main/java/pl/kul/taskmanager/mapper/ProjectMapper.java:11-16 | a new project with the request's name and description, no id and no tasks; property in `ProjectMapper.ToDTOOfToEntity` |
| ProjectMapper.ToDTO | Server/task-manager-server/src/main/java/pl/kul/taskmanager/mapper/ProjectMapper.java:18-27 | the project's fields with its task list mapped; properties in `ProjectMapper.TasksToDTO` and `ProjectMapper.ToDTOKeepsDuplicates` |
| ProjectMapper.TasksToDTO | Server/task-manager-server/src/main/java/pl/kul/taskmanager/mapper/ProjectMapper.java:23-25 | the mapped list has the same length and order, with entry i the response of task i |
| ProjectMapper.TasksToDTOAppend | Server/task-manager-server/src/main/java/pl/kul/taskmanager/mapper/ProjectMapper.java:23-25 | mapping commutes with appending a task |
| ProjectMapper.ToDTOOfToEntity | Server/task-manager-server/src/main/java/pl/kul/taskmanager/mapper/ProjectMapper.java:11-27 | a project made from a request maps to a response with the request's name and description, no id and no tasks |
| ProjectMapper.ToDTOKeepsDuplicates | Server/task-manager-server/src/main/java/pl/kul/taskmanager/mapper/ProjectMapper.java:23-25 | a task listed twice is mapped twice, and each entry carries only its project's id |
| Dto.TaskRequestViolations | Server/task-manager-server/src/main/java/pl/kul/taskmanager/dto/TaskRequestDTO.java:19-35 | a request has no violation exactly when its constraints hold (`projectId` is unconstrained); violations name only the five constrained fields |
| Dto.EmptyNameRejected | Server/task-manager-server/src/main/java/pl/kul/taskmanager/dto/TaskRequestDTO.java:19-21 | an empty name is rejected with the size message, whatever the other fields hold |
| Dto.PastDueDateRejected | Server/task-manager-server/src/main/java/pl/kul/taskmanager/dto/TaskRequestDTO.java:32-33 | a due date before today is rejected with the due-date message, whatever the other fields hold |
| Repository.TasksOfMembership | Server/task-manager-server/src/main/java/pl/kul/taskmanager/model/Task.java:43-45 | a stored task is in the loaded list of the project its key names, and in no other |
| Repository.InIdOrderValues | Server/task-manager-server/src/main/java/pl/kul/taskmanager/service/TaskService.java:37 | the rows `findAll()` lists are exactly the stored rows |
| Repository.TaskRepository.FindAll | Server/task-manager-server/src/main/java/pl/kul/taskmanager/service/TaskService.java:37 | every task row, in the model's ascending id order; `Repository.InIdOrderValues` states it lists exactly the stored rows |
| Repository.TaskRepository.FindById | Server/task-manager-server/src/main/java/pl/kul/taskmanager/repository/TaskRepository.java:7 | `findById` finds a row exactly when the id is stored, and gives that row |
| Repository.TaskRepository.Save | Server/task-manager-server/src/main/java/pl/kul/taskmanager/repository/TaskRepository.java:7 | `save` inserts a task without an id under the next identity value and advances the counter, or replaces the stored row with the task's id |
| Repository.TaskRepository.DeleteById | Server/task-manager-server/src/main/java/pl/kul/taskmanager/repository/TaskRepository.java:7 | `deleteById` removes exactly that key |
| Repository.ProjectRepository.FindAll | Server/task-manager-server/src/main/java/pl/kul/taskmanager/service/ProjectService.java:40 | every project row, in the model's ascending id order; `Repository.InIdOrderValues` states it lists exactly the stored rows |
| Repository.ProjectRepository.FindById | Server/task-manager-server/src/main/java/pl/kul/taskmanager/repository/ProjectRepository.java:7 | `findById` finds a row exactly when the id is stored |
| Repository.ProjectRepository.Save | Server/task-manager-server/src/main/java/pl/kul/taskmanager/repository/ProjectRepository.java:7 | `save` inserts under the next identity value, or replaces the stored row |
| Repository.ProjectRepository.DeleteById | Server/task-manager-server/src/main/java/pl/kul/taskmanager/repository/ProjectRepository.java:7 | `deleteById` removes exactly that key |
| TaskService.BuildSpec | Server/task-manager-server/src/main/java/pl/kul/taskmanager/service/TaskService.java:72-107 | `Specification.where(null)` and the `and` of each given criterion, in source order; meaning in `TaskService.BuildSpecMeaning` |
| TaskService.SearchPage | Server/task-manager-server/src/main/java/pl/kul/taskmanager/service/TaskService.java:109-110 | `findAll(spec, pageable).map(toDTO)`; meaning in `TaskService.SearchPageContents` and `TaskService.SearchPageSound` |
| TaskService.BuildSpecMeaning | Server/task-manager-server/src/main/java/pl/kul/taskmanager/service/TaskService.java:72-107 | the predicate built criterion by criterion accepts a task exactly when the task meets every given criterion, with `search` as name OR description and blank texts left out |
| TaskService.SearchPageContents | Server/task-manager-server/src/main/java/pl/kul/taskmanager/service/TaskService.java:109-110 | the search page holds the responses of the matching tasks from `page * size` on, at most `size`, and counts all matching tasks |
| TaskService.SearchPageSound | Server/task-manager-server/src/main/java/pl/kul/taskmanager/service/TaskService.java:69-111 | every task a search page shows is a stored task that meets all the given criteria |
| TaskService.SearchNoCriteria | Server/task-manager-server/src/main/java/pl/kul/taskmanager/service/TaskService.java:72 | with every criterion null nothing is filtered: the total is the table size and the pages slice the whole table |
| TaskService.SearchBlankTextIsAbsent | Server/task-manager-server/src/main/java/pl/kul/taskmanager/service/TaskService.java:94-103 | a blank `search` or `name` gives the same page as a null one |
| TaskService.SameSpecSamePage | Server/task-manager-server/src/main/java/pl/kul/taskmanager/service/TaskService.java:69-111 | criteria that accept the same tasks give the same page |
| TaskService.SearchKeywordUntrimmed | Server/task-manager-server/src/main/java/pl/kul/taskmanager/service/TaskService.java:94-99 | the keyword is used untrimmed: " bug" finds neither a task named "bug" nor one described as "bug" |
| TaskService.SearchInvertedDateRange | Server/task-manager-server/src/main/java/pl/kul/taskmanager/service/TaskService.java:86-92 | a due-date range whose start is after its end gives an empty page with total 0, not an error |
| TaskService.ApplyRequest | Server/task-manager-server/src/main/java/pl/kul/taskmanager/service/TaskService.java:51-55 | the five setters take name, description, priority, status and due date from the request and keep id and project |
| TaskService.ApplyRequestProperties | Server/task-manager-server/src/main/java/pl/kul/taskmanager/service/TaskService.java:48-60 | an update ignores the request's projectId, is idempotent, and equals the mapped request with the task's id and project |
| TaskService.TaskService.CreateTask | Server/task-manager-server/src/main/java/pl/kul/taskmanager/service/TaskService.java:30-34 | the request's fields are stored as a new task under the next id with no project, and the response carries that fresh id |
| TaskService.TaskService.GetAllTasks | Server/task-manager-server/src/main/java/pl/kul/taskmanager/service/TaskService.java:36-40 | one response per stored task, entry i mapped from the i-th row `findAll()` lists (ascending id order is the model's choice) |
| TaskService.TaskService.GetTaskById | Server/task-manager-server/src/main/java/pl/kul/taskmanager/service/TaskService.java:42-46 | the stored task's response, or TaskNotFound for a missing id |
| TaskService.TaskService.UpdateTask | Server/task-manager-server/src/main/java/pl/kul/taskmanager/service/TaskService.java:48-60 | the stored task takes the request's five fields and keeps its id and project; a missing id is TaskNotFound and nothing is saved |
| TaskService.TaskService.DeleteTask | Server/task-manager-server/src/main/java/pl/kul/taskmanager/service/TaskService.java:62-67 | exactly that task is removed, or TaskNotFound and nothing is removed |
| ProjectService.LoadProject | Server/task-manager-server/src/main/java/pl/kul/taskmanager/service/ProjectService.java:106-109 | the project a `findById` loads: its columns and the tasks whose key names it; property in `Repository.TasksOfMembership` |
| ProjectService.RowOfLoad | Server/task-manager-server/src/main/java/pl/kul/taskmanager/service/ProjectService.java:137-139 | saving a loaded project unchanged writes back the row it came from |
| ProjectService.UpdateDetails | Server/task-manager-server/src/main/java/pl/kul/taskmanager/service/ProjectService.java:116-119 | name and description come from the request; id and tasks are kept |
| ProjectService.BuildSpec | Server/task-manager-server/src/main/java/pl/kul/taskmanager/service/ProjectService.java:64-78 | `where(null)` and the `and` of each given criterion; meaning in `ProjectService.BuildSpecMeaning` |
| ProjectService.SearchPage | Server/task-manager-server/src/main/java/pl/kul/taskmanager/service/ProjectService.java:79-80 | `findAll(spec, pageable).map(toDTO)`; properties in `ProjectService.SearchById` and `ProjectService.SearchNoCriteria` |
| ProjectService.BuildSpecMeaning | Server/task-manager-server/src/main/java/pl/kul/taskmanager/service/ProjectService.java:64-78 | the built predicate accepts a project exactly when every given criterion holds, with blank texts left out |
| ProjectService.FilterByIdAtMostOne | Server/task-manager-server/src/main/java/pl/kul/taskmanager/specification/ProjectSpecification.java:19-22 | among projects with distinct ids, at most one passes a filter that requires a given id |
| ProjectService.SearchById | Server/task-manager-server/src/main/java/pl/kul/taskmanager/service/ProjectService.java:67-69 | a search by id finds at most one project, and only the project with that id |
| ProjectService.SearchBlankTextIsAbsent | Server/task-manager-server/src/main/java/pl/kul/taskmanager/service/ProjectService.java:71-77 | a blank name or description filter gives the same page as a null one |
| ProjectService.SearchNoCriteria | Server/task-manager-server/src/main/java/pl/kul/taskmanager/service/ProjectService.java:65 | with no filter every project counts |
| ProjectService.AssignTask | Server/task-manager-server/src/main/java/pl/kul/taskmanager/service/ProjectService.java:121-124 | `task.setProject(project)` and `project.getTasks().add(task)`; meaning in `ProjectService.AssignTaskAppends` |
| ProjectService.AssignTaskAppends | Server/task-manager-server/src/main/java/pl/kul/taskmanager/service/ProjectService.java:121-124 | the task gets the project's id, and the list grows by exactly that task at its end; the project's columns are unchanged |
| ProjectService.AssignTwiceAppendsTwice | Server/task-manager-server/src/main/java/pl/kul/taskmanager/service/ProjectService.java:121-124 | assigning twice appends the task twice: there is no duplicate check |
| ProjectService.UnassignTask | Server/task-manager-server/src/main/java/pl/kul/taskmanager/service/ProjectService.java:126-129 | `task.setProject(null)` and `project.getTasks().remove(task)`; meaning in `ProjectService.UnassignMatchesReload` and `ProjectService.RemoveFirstWithIdSlices` |
| ProjectService.AssignedTo | Server/task-manager-server/src/main/java/pl/kul/taskmanager/service/ProjectService.java:131-135 | the check `validateTaskAssignmentToProject` makes before it throws; its use is stated by `ProjectService.ProjectService.RemoveTaskFromProject` |
| ProjectService.RemoveFirstWithIdSlices | Server/task-manager-server/src/main/java/pl/kul/taskmanager/service/ProjectService.java:128 | the list's first entry with the task's id is removed and the others stay in order; with no such entry the list is unchanged |
| ProjectService.RemoveFirstWithIdCount | Server/task-manager-server/src/main/java/pl/kul/taskmanager/service/ProjectService.java:128 | a listed task's removal drops exactly one entry, that one |
| ProjectService.TasksOfUnaffected | Server/task-manager-server/src/main/java/pl/kul/taskmanager/service/ProjectService.java:141-144 | saving a task row that is outside the project before and after leaves the project's loaded list as it was |
| ProjectService.TasksOfLeaving | Server/task-manager-server/src/main/java/pl/kul/taskmanager/service/ProjectService.java:126-129 | unlinking a listed task removes exactly its entry from the project's loaded list |
| ProjectService.LinkedTaskListedOnce | Server/task-manager-server/src/main/java/pl/kul/taskmanager/service/ProjectService.java:83-92 | after a link is saved, the task is in the target project's loaded list and in no other project's |
| ProjectService.LinkAgainListsTwice | Server/task-manager-server/src/main/java/pl/kul/taskmanager/service/ProjectService.java:83-92 | linking a task already in the project returns the project listing it twice |
| ProjectService.UnlinkMatchesReload | Server/task-manager-server/src/main/java/pl/kul/taskmanager/service/ProjectService.java:94-104 | the project an unlink returns equals the project as it loads after the save |
| ProjectService.UnassignMatchesReload | Server/task-manager-server/src/main/java/pl/kul/taskmanager/service/ProjectService.java:126-129 | unassigning clears only the task's key, the in-memory project equals its reload, and its columns are unchanged |
| ProjectService.LinkUnlinkRoundTrip | Server/task-manager-server/src/main/java/pl/kul/taskmanager/service/ProjectService.java:83-104 | linking a task from outside a project and unlinking it leaves the project's loaded list as it was |
| ProjectService.ProjectService.CreateProject | Server/task-manager-server/src/main/java/pl/kul/taskmanager/service/ProjectService.java:33-37 | a new row under the next id with the request's fields; the response has that id and no tasks |
| ProjectService.ProjectService.GetAllProjects | Server/task-manager-server/src/main/java/pl/kul/taskmanager/service/ProjectService.java:39-43 | one response per stored project, entry i mapped from the i-th row `findAll()` lists, with its loaded tasks (ascending id order is the model's choice) |
| ProjectService.ProjectService.GetProjectById | Server/task-manager-server/src/main/java/pl/kul/taskmanager/service/ProjectService.java:45-48 | the stored project with its loaded tasks, or ProjectNotFound |
| ProjectService.ProjectService.UpdateProject | Server/task-manager-server/src/main/java/pl/kul/taskmanager/service/ProjectService.java:50-55 | name and description are replaced and the tasks are untouched; a missing id is ProjectNotFound and nothing is saved |
| ProjectService.ProjectService.DeleteProject | Server/task-manager-server/src/main/java/pl/kul/taskmanager/service/ProjectService.java:57-62 | exactly that row is removed, or ProjectNotFound and nothing is removed |
| ProjectService.ProjectService.SaveTaskAndProject | Server/task-manager-server/src/main/java/pl/kul/taskmanager/service/ProjectService.java:141-144 | the task row and the project's columns are written; nothing else changes |
| ProjectService.ProjectService.AddTaskToProject | Server/task-manager-server/src/main/java/pl/kul/taskmanager/service/ProjectService.java:83-92 | the project is looked up before the task; on success only the task's key changes, and the response is the loaded project with the task appended |
| ProjectService.ProjectService.RemoveTaskFromProject | Server/task-manager-server/src/main/java/pl/kul/taskmanager/service/ProjectService.java:94-104 | ProjectNotFound, then TaskNotFound, then InvalidAssignment for a task not assigned to the project, each changing nothing; otherwise the task loses its project and the response is the project as it reloads |
| ProjectService.ProjectService.UnassignAndSave | Server/task-manager-server/src/main/java/pl/kul/taskmanager/service/ProjectService.java:100-103 | the unassigned task is saved, no project row changes, and the returned project is the project as it now reloads |
| Controllers.ParseSort | Server/task-manager-server/src/main/java/pl/kul/taskmanager/controller/TaskController.java:75-81 | the direction is DESC exactly for a two-element sort whose second element is "desc" in any case; a two-element sort names the property; any other length is id ascending |
| Controllers.Pageable | Server/task-manager-server/src/main/java/pl/kul/taskmanager/controller/TaskController.java:83 | the pageable is built exactly when the property has text, the page is >= 0 and the size is >= 1; a blank property is reported first |
| Controllers.PageableDefaults | Server/task-manager-server/src/main/java/pl/kul/taskmanager/controller/TaskController.java:71-83 | the defaults give page 0 of size 10 sorted by id ascending |
| Controllers.PageableFallsBackToId | Server/task-manager-server/src/main/java/pl/kul/taskmanager/controller/TaskController.java:75-78 | a sort array of any length other than 2 sorts by id ascending |
| Controllers.ParseSortDirection | Server/task-manager-server/src/main/java/pl/kul/taskmanager/controller/TaskController.java:78-81 | "DESC", "Desc" and "desc" sort descending; anything else sorts ascending |
| Controllers.SearchTasks | Server/task-manager-server/src/main/java/pl/kul/taskmanager/controller/TaskController.java:61-87 | the task search succeeds exactly when the pageable is built, and then forwards the eight criteria unchanged; otherwise it raises the pageable's error |
| Controllers.SearchProjects | Server/task-manager-server/src/main/java/pl/kul/taskmanager/controller/ProjectController.java:56-77 | the project search does the same with its three criteria |
| Controllers.SearchProjectsDefaults | Server/task-manager-server/src/main/java/pl/kul/taskmanager/controller/ProjectController.java:61-75 | with the defaults a project search is the first page of ten by id ascending |
| Controllers.SearchTasksPageShape | Server/task-manager-server/src/main/java/pl/kul/taskmanager/controller/TaskController.java:83-85 | a returned page has the requested number and size and at most `size` entries |
| Controllers.BlankSortPropertyIsBadRequest | Server/task-manager-server/src/main/java/pl/kul/taskmanager/controller/TaskController.java:75-83 | a blank sort property is a 400 with Spring's message, whatever the page and size |
| BaseApiService.Encode | Client/task-manager-client-console/src/main/java/pl/kul/taskmanagerclient/api/BaseApiService.java:43 | `URLEncoder.encode(value, UTF_8)` char by char; meaning in `BaseApiService.FormRoundTrip` and `BaseApiService.EncodeChars` |
| BaseApiService.UrlWithQuery | Client/task-manager-client-console/src/main/java/pl/kul/taskmanagerclient/api/BaseApiService.java:38-47 | the URL `buildUrlWithQuery` returns; `BaseApiService.BuildUrlWithQuery` is proved to return it and `BaseApiService.QueryRoundTrip` states what it holds |
| BaseApiService.Utf8 | Client/task-manager-client-console/src/main/java/pl/kul/taskmanagerclient/api/BaseApiService.java:43 | a character's UTF-8 form is 1 to 4 bytes, and 1 byte (the code itself) exactly for ASCII |
| BaseApiService.Utf8CodePoint | Client/task-manager-client-console/src/main/java/pl/kul/taskmanagerclient/api/BaseApiService.java:43 | decoding a character's UTF-8 bytes gives back the character, and the byte count follows its range |
| BaseApiService.PercentBytes | Client/task-manager-client-console/src/main/java/pl/kul/taskmanagerclient/api/BaseApiService.java:43 | each byte becomes three characters |
| BaseApiService.DecodePercent | Client/task-manager-client-console/src/main/java/pl/kul/taskmanagerclient/api/BaseApiService.java:43 | the `%XY` triples decode to the bytes they were made from |
| BaseApiService.DecodeEncodeChar | Client/task-manager-client-console/src/main/java/pl/kul/taskmanagerclient/api/BaseApiService.java:43 | one encoded character decodes to its UTF-8 bytes |
| BaseApiService.FormRoundTrip | Client/task-manager-client-console/src/main/java/pl/kul/taskmanagerclient/api/BaseApiService.java:43 | form decoding reads back exactly the UTF-8 bytes of the encoded value |
| BaseApiService.EncodeChars | Client/task-manager-client-console/src/main/java/pl/kul/taskmanagerclient/api/BaseApiService.java:43 | an encoded value holds only letters, digits, `.-*_`, `+` and `%`, so never `&`, `=` or `#` |
| BaseApiService.TerminatedIsJoin | Client/task-manager-client-console/src/main/java/pl/kul/taskmanagerclient/api/BaseApiService.java:42-44 | pairs each followed by `&` are the pairs joined by `&` plus one final `&` |
| BaseApiService.AppendPairs | Client/task-manager-client-console/src/main/java/pl/kul/taskmanagerclient/api/BaseApiService.java:42-43 | the `forEach` appends every `key=encoded value` pair, each followed by `&` |
| BaseApiService.BuildUrlWithQuery | Client/task-manager-client-console/src/main/java/pl/kul/taskmanagerclient/api/BaseApiService.java:38-47 | the URL is base + path, then for a non-empty map `?` and the pairs joined by `&` with no trailing `&` |
| BaseApiService.UrlWithoutQuery | Client/task-manager-client-console/src/main/java/pl/kul/taskmanagerclient/api/BaseApiService.java:38-46 | with a null or empty map the URL is base + path, and a null path counts as "" |
| BaseApiService.QueryRoundTrip | Client/task-manager-client-console/src/main/java/pl/kul/taskmanagerclient/api/BaseApiService.java:41-44 | the query splits on `&` into one piece per entry, in order; each is the raw key, `=`, and a value that decodes to the entry's value (for keys without `&` and `=`) |
| BaseApiService.PairReadsBack | Client/task-manager-client-console/src/main/java/pl/kul/taskmanagerclient/api/BaseApiService.java:43 | in one pair the first `=` ends the raw key, and the rest decodes to the value's bytes |
| BaseApiService.EncodeExamples | Client/task-manager-client-console/src/main/java/pl/kul/taskmanagerclient/api/BaseApiService.java:43 | "a b" encodes to "a+b", "&" to "%26" and "ż" to "%C5%BC" |
| BaseApiService.HandleResponse | Client/task-manager-client-console/src/main/java/pl/kul/taskmanagerclient/api/BaseApiService.java:56-64 | an error exactly outside 200..299, with "Unexpected error: status - body"; no value exactly for a 2xx without a type reference or with a null or empty body; otherwise the body is read |
| BaseApiService.ErrorMessageNamesStatus | Client/task-manager-client-console/src/main/java/pl/kul/taskmanagerclient/api/BaseApiService.java:63 | the status can be read back from the error message, whatever the body |
| BaseApiService.StatusClassEdges | Client/task-manager-client-console/src/main/java/pl/kul/taskmanagerclient/api/BaseApiService.java:57 | 200 and 299 succeed, 199 and 300 are errors |
| BaseApiService.HandleResponseExamples | Client/task-manager-client-console/src/main/java/pl/kul/taskmanagerclient/api/BaseApiService.java:56-64 | an empty 204 gives no value; a 404 gives "Unexpected error: 404 - " and the body |
| TaskConsoleHandler.SearchParameter | Client/task-manager-client-console/src/main/java/pl/kul/taskmanagerclient/console/TaskConsoleHandler.java:107-118 | the trimmed choices "1" to "4" give id, name, status and priority; any other choice gives none |
| TaskConsoleHandler.SearchParameterTrimmed | Client/task-manager-client-console/src/main/java/pl/kul/taskmanagerclient/console/TaskConsoleHandler.java:107-118 | " 1" gives "id" and "4 " gives "priority": the choice is trimmed before the `switch`; "5" gives none |
| TaskConsoleHandler.NavigationStep | Client/task-manager-client-console/src/main/java/pl/kul/taskmanagerclient/console/TaskConsoleHandler.java:165-185 | Q quits and nothing else does; N moves on only before the last page, P moves back only after the first, any other key stays |
| TaskConsoleHandler.NavigationStaysInRange | Client/task-manager-client-console/src/main/java/pl/kul/taskmanagerclient/console/TaskConsoleHandler.java:165-185 | from a page of the result a step stays within the result's pages and moves at most one page |
| TaskConsoleHandler.SearchRounds | Client/task-manager-client-console/src/main/java/pl/kul/taskmanagerclient/console/TaskConsoleHandler.java:124-187 | the `while (continuePagination)` loop from page 0 produces exactly the rounds of the reference function |
| TaskConsoleHandler.Round | Client/task-manager-client-console/src/main/java/pl/kul/taskmanagerclient/console/TaskConsoleHandler.java:128-186 | one loop body shows its round and, when the loop goes on, the rest are the rounds from the next page, with a line consumed |
| TaskConsoleHandler.ApplyNavChoice | Client/task-manager-client-console/src/main/java/pl/kul/taskmanagerclient/console/TaskConsoleHandler.java:165-185 | the `switch` quits exactly on Q and otherwise moves to the page the navigation step gives |
| TaskConsoleHandler.RoundsProperties | Client/task-manager-client-console/src/main/java/pl/kul/taskmanagerclient/console/TaskConsoleHandler.java:128-186 | every round but the last shows a page of several; "no tasks found" comes only first; requested pages are never negative and move by at most one a round |
| TaskConsoleHandler.FirstRoundLabel | Client/task-manager-client-console/src/main/java/pl/kul/taskmanagerclient/console/TaskConsoleHandler.java:147 | the first round requests page 0 and shows the response's zero-based number plus one |
| TaskConsoleHandler.SinglePageEndsLoop | Client/task-manager-client-console/src/main/java/pl/kul/taskmanagerclient/console/TaskConsoleHandler.java:149-151 | a result of a single page is shown and the loop ends without a prompt |
| TaskConsoleHandler.NextOnLastPageStays | Client/task-manager-client-console/src/main/java/pl/kul/taskmanagerclient/console/TaskConsoleHandler.java:166-172 | " n " on the last page asks for the same page again |
| TaskConsoleHandler.PriorityInput | Client/task-manager-client-console/src/main/java/pl/kul/taskmanagerclient/console/TaskConsoleHandler.java:264-273 | a priority is picked exactly when the trimmed, upper-cased line is a constant's name |
| TaskConsoleHandler.StatusInput | Client/task-manager-client-console/src/main/java/pl/kul/taskmanagerclient/console/TaskConsoleHandler.java:275-284 | a status is picked exactly when the trimmed, upper-cased line is a constant's name |
| TaskConsoleHandler.ProjectInput | Client/task-manager-client-console/src/main/java/pl/kul/taskmanagerclient/console/TaskConsoleHandler.java:286-301 | only "yes" (any case) changes the project: an empty id line unassigns, a number assigns, anything else keeps |
| TaskConsoleHandler.ProjectInputScriptDigits | Client/task-manager-client-console/src/main/java/pl/kul/taskmanagerclient/console/TaskConsoleHandler.java:293-296 | "yes" and then an Arabic-Indic one assigns project 1, as `Long.parseLong` reads it |
| TaskConsoleHandler.EditInputAnyCase | Client/task-manager-client-console/src/main/java/pl/kul/taskmanagerclient/console/TaskConsoleHandler.java:264-284 | " high" picks HIGH and "in_progress " picks IN_PROGRESS |
| TaskConsoleHandler.EditInputKeeps | Client/task-manager-client-console/src/main/java/pl/kul/taskmanagerclient/console/TaskConsoleHandler.java:264-273 | "urgent" and an empty line keep the priority |
| TaskConsoleHandler.TaskDto.UpdateTaskName | Client/task-manager-client-console/src/main/java/pl/kul/taskmanagerclient/console/TaskConsoleHandler.java:250-255 | an empty line keeps the name, anything else replaces it trimmed; no other field changes |
| TaskConsoleHandler.TaskDto.UpdateTaskDescription | Client/task-manager-client-console/src/main/java/pl/kul/taskmanagerclient/console/TaskConsoleHandler.java:257-262 | an empty line keeps the description, anything else replaces it trimmed; no other field changes |
| TaskConsoleHandler.TaskDto.UpdateTaskPriority | Client/task-manager-client-console/src/main/java/pl/kul/taskmanagerclient/console/TaskConsoleHandler.java:264-273 | the priority changes exactly to the constant the line names, and otherwise stays; no other field changes |
| TaskConsoleHandler.TaskDto.UpdateTaskStatus | Client/task-manager-client-console/src/main/java/pl/kul/taskmanagerclient/console/TaskConsoleHandler.java:275-284 | the status changes exactly to the constant the line names, and otherwise stays; no other field changes |
| TaskConsoleHandler.TaskDto.UpdateTaskProject | Client/task-manager-client-console/src/main/java/pl/kul/taskmanagerclient/console/TaskConsoleHandler.java:286-301 | the project id changes exactly as the two answers ask; no other field changes |
| TaskConsoleHandler.PromptForValidDate | Client/task-manager-client-console/src/main/java/pl/kul/taskmanagerclient/console/TaskConsoleHandler.java:216-234 | the prompt loop gives the first accepted answer, and every line before the last one it read was turned down |
| TaskConsoleHandler.FirstAcceptedDateDue | Client/task-manager-client-console/src/main/java/pl/kul/taskmanagerclient/console/TaskConsoleHandler.java:216-234 | a returned date is a real date, not before today, parsed from a line after only turned-down lines |
| TaskConsoleHandler.FirstAcceptedDateNone | Client/task-manager-client-console/src/main/java/pl/kul/taskmanagerclient/console/TaskConsoleHandler.java:219-221 | no date comes only from an empty line after only turned-down lines |
| TaskConsoleHandler.FirstAcceptedDateEnded | Client/task-manager-client-console/src/main/java/pl/kul/taskmanagerclient/console/TaskConsoleHandler.java:216-234 | the input runs out only when every line was turned down |
| TaskConsoleHandler.TodayAcceptedYesterdayNot | Client/task-manager-client-console/src/main/java/pl/kul/taskmanagerclient/console/TaskConsoleHandler.java:224-229 | today's date is accepted; an earlier date is turned down and the prompt asks again |

## Left out

- Case mapping in `toLowerCase`, `toUpperCase` and `equalsIgnoreCase` is ASCII only: every letter outside A-Z and a-z is left unchanged (É, Ä, Ż, ß and the rest), so in the model the keyword "ŻÓŁW" does not find "żółw", which Java's `toLowerCase` with the database's `lower()` would find.
- Dates.ParseIsoDate: accepts only unsigned four-digit years, while `LocalDate.parse` also reads signed years of more than four digits.
- SQL `LIKE` wildcards: `%` and `_` in a keyword are not escaped by the specifications. The model treats the keyword as a plain substring.
- Row order of `findAll()` and of a loaded task list: the queries behind `findAll()` (`TaskService.java:37`, `ProjectService.java:40`) and the lazy load of `project.getTasks()` have no ORDER BY, so the program fixes no order. The model takes both in ascending id order as its own choice, and the positions stated by `ProjectService.UnlinkMatchesReload`, `ProjectService.LinkAgainListsTwice`, `TaskService.TaskService.GetAllTasks` and `ProjectService.ProjectService.GetAllProjects` rest on that choice.
- The storage engine's ordering of a search: each search takes the table as rows already in the order the engine returns for the requested sort. A sort property that names no column fails only at query time, and that failure is not modelled.
- The order in which Hibernate Validator reports violations is not fixed. The model lists them in declaration order. The `@NotNull` message is the Polish-locale default the repository's tests expect.
- deleteProject on a project that still has tasks: foreign-key and cascade behaviour belong to the database. The model removes the row and leaves task keys that name a missing project.
- The stale in-memory list of a project a task was previously assigned to. In the model, lists are always loaded from the foreign key, so linking a task elsewhere drops it from the old project's list on the next load.
- Jackson: `objectMapper.readValue` of the response body and JSON serialisation. `HandleResponse` stops at handing the body to the reader.
- Network I/O: `createRequest`, `sendRequest`, `TaskApiService` and `ProjectApiService`.
- Scanner input and printing. Console lines are a sequence; running out of lines ends the operation, as the scanner's exception does.
- In the search loop the server is a function from page number to the page it answers. The `queryParams` map and the typed search value are not modelled.
- `Map.of` iteration order: the query map is a sequence of entries in iteration order.
- The field of the client `TaskDto` that holds a project object.
- The model's `Project` entity, its request record and the project not-found message follow `ProjectTest.java:45-137` and `ProjectServiceTest.java:50-51,106`: the fields and constraints those tests fix, and the message they expect.
- The client's `Priority` and `Status` have the server's constants.
- `ProjectConsoleHandler`, `MenuHandler`, `MenuPrinter` and `ConsoleApplication`: console UI without further logic.
- `promptForValidId`, `promptForNonEmptyInput`, `promptForValidPriority` and `promptForValidStatus` in the console: plain prompt loops.
- Hibernate validation during persist, and the `@Min` / `@Valid` dispatch on the controllers: requests are validated by `Dto.TaskRequestViolations`, which the handler reports.
- Integer widths: ids are unbounded integers, not 64-bit `Long`s (the not-found messages are proved against the `long` range). The `int` binding of page and size is not modelled, nor Spring's splitting of a `sort` parameter on commas.
- Transactions and concurrency: each service method is one atomic step.
- Lombok's `equals`: `List.remove(task)` is modelled as removing the first entry with the task's id.
- Task equality: Lombok's structural equality is Dafny's datatype equality, so it needs no lemma.
- `LocalDate.now()`: the current day is the parameter `today`.
- BaseApiService.FormRoundTrip: the decoding side is proved against the UTF-8 bytes, not decoded back to a string.
