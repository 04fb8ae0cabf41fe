/** `ProjectMapper`: between project requests, project entities and project responses. */
module ProjectMapper {
  import opened Wrappers
  import opened Model
  import opened Dto
  import TaskMapper

  /** `toEntity`: a fresh project with the request's name and description and no tasks. */
  function ToEntity(r: ProjectRequest): Project {
    Project(None, r.name, r.description, [])
  }

  /** `tasks.stream().map(TaskMapper::toDTO)`: element by element, in order, duplicates kept. */
  function TasksToDTO(ts: seq<Task>): (r: seq<TaskResponse>)
    ensures |r| == |ts|
    ensures forall i :: 0 <= i < |ts| ==> r[i] == TaskMapper.ToDTO(ts[i])
  {
    if ts == [] then [] else [TaskMapper.ToDTO(ts[0])] + TasksToDTO(ts[1..])
  }

  /** `toDTO`: the project's columns and its task list mapped element-wise. */
  function ToDTO(p: Project): ProjectResponse {
    ProjectResponse(p.id, p.name, p.description, TasksToDTO(p.tasks))
  }

  /** Mapping the task list commutes with appending a task. */
  lemma TasksToDTOAppend(ts: seq<Task>, t: Task)
    ensures TasksToDTO(ts + [t]) == TasksToDTO(ts) + [TaskMapper.ToDTO(t)]
  {
  }

  /** A project made from a request maps to a response with the request's fields and no tasks. */
  lemma ToDTOOfToEntity(r: ProjectRequest)
    ensures ToDTO(ToEntity(r)) == ProjectResponse(None, r.name, r.description, [])
  {
  }

  /** A task listed twice appears twice in the response, each carrying only its project's id. */
  lemma ToDTOKeepsDuplicates(p: Project, i: nat, j: nat)
    requires i < j < |p.tasks| && p.tasks[i] == p.tasks[j]
    ensures |ToDTO(p).tasks| == |p.tasks|
    ensures ToDTO(p).tasks[i] == ToDTO(p).tasks[j]
    ensures ToDTO(p).tasks[i].projectId == p.tasks[i].project
  {
  }
}
