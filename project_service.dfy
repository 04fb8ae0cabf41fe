/**
 * `ProjectService`: project CRUD, the project search, and the operations that
 * link a task to a project and unlink it.
 *
 * A project's task list is loaded from the tasks whose foreign key names the
 * project (`Repository.TasksOf`). The linking operations change that key on
 * the task row, and return the project as they left it in memory: the loaded
 * list with the task appended, or with its first entry for the task removed.
 */
module ProjectService {
  import opened Wrappers
  import opened Text
  import opened Model
  import opened Dto
  import opened Errors
  import opened Paging
  import opened Repository
  import ProjectMapper
  import Spec = ProjectSpecification

  // ---------------------------------------------------------------------------
  // Loading and saving a project
  // ---------------------------------------------------------------------------

  /** The project entity `findById` yields for a row: its columns and its loaded task list. */
  function LoadProject(row: ProjectRow, tasks: map<int, Task>): Project {
    Project(row.id, row.name, row.description, if row.id.Some? then TasksOf(tasks, row.id.value) else [])
  }

  /** The columns `save` writes for a project; the task list is not a column. */
  function RowOf(p: Project): ProjectRow {
    ProjectRow(p.id, p.name, p.description)
  }

  /** Saving a loaded project unchanged writes back the row it was loaded from. */
  lemma RowOfLoad(row: ProjectRow, tasks: map<int, Task>)
    ensures RowOf(LoadProject(row, tasks)) == row
  {
  }

  /** `updateProjectDetails`: name and description from the request; id and tasks kept. */
  function UpdateDetails(p: Project, dto: ProjectRequest): (r: Project)
    ensures r.id == p.id && r.tasks == p.tasks
    ensures r.name == dto.name && r.description == dto.description
  {
    p.(name := dto.name, description := dto.description)
  }

  // ---------------------------------------------------------------------------
  // Search
  // ---------------------------------------------------------------------------

  /** The three optional filters of `searchProjects`. */
  datatype ProjectCriteria = ProjectCriteria(id: Option<int>, name: Option<string>, description: Option<string>)

  /** `s != null && !s.trim().isEmpty()`. */
  predicate TextGiven(s: Option<string>) {
    s.Some? && !IsBlank(s.value)
  }

  /** The reference meaning of a project search: every given criterion holds. */
  predicate MatchesCriteria(c: ProjectCriteria, p: Project) {
    && (c.id.Some? ==> Spec.HasId(c.id.value, p))
    && (TextGiven(c.name) ==> Spec.NameContains(c.name.value, p))
    && (TextGiven(c.description) ==> Spec.DescriptionContains(c.description.value, p))
  }

  /** `spec = spec.and(next)` when the criterion is present. */
  function AndIf(given: bool, spec: Project -> bool, next: Project -> bool): (r: Project -> bool)
    ensures forall p :: r(p) == (spec(p) && (given ==> next(p)))
  {
    if given then (p => spec(p) && next(p)) else spec
  }

  /** The predicate `searchProjects` accumulates, starting from `Specification.where(null)`. */
  function BuildSpec(c: ProjectCriteria): Project -> bool {
    var id := if c.id.Some? then c.id.value else 0;
    var name := if c.name.Some? then c.name.value else "";
    var description := if c.description.Some? then c.description.value else "";
    var s1 := AndIf(c.id.Some?, p => true, p => Spec.HasId(id, p));
    var s2 := AndIf(TextGiven(c.name), s1, p => Spec.NameContains(name, p));
    AndIf(TextGiven(c.description), s2, p => Spec.DescriptionContains(description, p))
  }

  /** The accumulated predicate accepts a project exactly when every given criterion holds. */
  lemma BuildSpecMeaning(c: ProjectCriteria, p: Project)
    ensures BuildSpec(c)(p) <==> MatchesCriteria(c, p)
  {
  }

  /** `searchProjects` over the loaded projects, listed in the storage engine's order for the sort. */
  function SearchPage(rows: seq<Project>, c: ProjectCriteria, pr: PageRequest): Page<ProjectResponse>
    requires pr.page >= 0 && pr.size >= 1
  {
    MapPage(FindAll(rows, BuildSpec(c), pr), ProjectMapper.ToDTO)
  }

  /** No two projects of the list share an id. */
  predicate DistinctIds(rows: seq<Project>) {
    forall i, j :: 0 <= i < j < |rows| ==> rows[i].id != rows[j].id
  }

  /** Of projects with distinct ids, at most one has a given id. */
  lemma {:induction false} FilterByIdAtMostOne(rows: seq<Project>, spec: Project -> bool, id: int)
    requires DistinctIds(rows)
    requires forall p :: spec(p) ==> p.id == Some(id)
    ensures |Filter(rows, spec)| <= 1
  {
    if rows != [] {
      var rest := rows[1..];
      assert DistinctIds(rest) by {
        forall i, j | 0 <= i < j < |rest| ensures rest[i].id != rest[j].id {
          assert rest[i] == rows[i + 1] && rest[j] == rows[j + 1];
        }
      }
      FilterByIdAtMostOne(rest, spec, id);
      if spec(rows[0]) {
        forall x | x in rest ensures !spec(x) {
          var j :| 0 <= j < |rest| && rest[j] == x;
          assert rows[j + 1] == x;
        }
        FilterNone(rest, spec);
      }
    }
  }

  /** A search by id finds at most one project, and only the one with that id. */
  lemma SearchById(rows: seq<Project>, c: ProjectCriteria, pr: PageRequest)
    requires pr.page >= 0 && pr.size >= 1
    requires DistinctIds(rows) && c.id.Some?
    ensures SearchPage(rows, c, pr).totalElements <= 1
    ensures forall r :: r in SearchPage(rows, c, pr).content ==> r.id == c.id
  {
    forall p | BuildSpec(c)(p) ensures p.id == Some(c.id.value) {
      BuildSpecMeaning(c, p);
    }
    FilterByIdAtMostOne(rows, BuildSpec(c), c.id.value);
    var found := FindAll(rows, BuildSpec(c), pr);
    forall r | r in SearchPage(rows, c, pr).content ensures r.id == c.id {
      var i :| 0 <= i < |found.content| && SearchPage(rows, c, pr).content[i] == r;
      assert found.content[i] in found.content;
      FindAllSound(rows, BuildSpec(c), pr, found.content[i]);
      BuildSpecMeaning(c, found.content[i]);
    }
  }

  /** Blank name and description filters are the same as absent ones. */
  lemma SearchBlankTextIsAbsent(rows: seq<Project>, c: ProjectCriteria, pr: PageRequest, s: string)
    requires pr.page >= 0 && pr.size >= 1
    requires IsBlank(s)
    ensures SearchPage(rows, c.(name := Some(s)), pr) == SearchPage(rows, c.(name := None), pr)
    ensures SearchPage(rows, c.(description := Some(s)), pr) == SearchPage(rows, c.(description := None), pr)
  {
    FilterSame(rows, BuildSpec(c.(name := Some(s))), BuildSpec(c.(name := None)));
    FilterSame(rows, BuildSpec(c.(description := Some(s))), BuildSpec(c.(description := None)));
  }

  /** With no filter every project is eligible. */
  lemma SearchNoCriteria(rows: seq<Project>, pr: PageRequest)
    requires pr.page >= 0 && pr.size >= 1
    ensures SearchPage(rows, ProjectCriteria(None, None, None), pr).totalElements == |rows|
  {
    FilterAllPass(rows, BuildSpec(ProjectCriteria(None, None, None)));
  }

  // ---------------------------------------------------------------------------
  // Linking a task to a project
  // ---------------------------------------------------------------------------

  /** `assignTaskToProject`: the task's project is set, and the task is appended to the list. */
  function AssignTask(t: Task, p: Project): (Task, Project) {
    var linked := t.(project := p.id);
    (linked, p.(tasks := p.tasks + [linked]))
  }

  /** The task's project is the only field that changes, and the list grows by exactly that task at its end. */
  lemma AssignTaskAppends(t: Task, p: Project)
    ensures var (t2, p2) := AssignTask(t, p);
      && t2 == t.(project := p.id)
      && p2.id == p.id && p2.name == p.name && p2.description == p.description
      && |p2.tasks| == |p.tasks| + 1 && p2.tasks[..|p.tasks|] == p.tasks && p2.tasks[|p.tasks|] == t2
  {
  }

  /** Assigning the same task twice appends it twice: there is no check for an entry already present. */
  lemma AssignTwiceAppendsTwice(t: Task, p: Project)
    ensures var (t2, p2) := AssignTask(t, p);
      AssignTask(t2, p2).1.tasks == p.tasks + [t2, t2]
  {
  }

  /** The position of the first entry with the id, or -1 when there is none. */
  function IndexOfId(ts: seq<Task>, id: Option<int>): (k: int)
    ensures -1 <= k < |ts|
  {
    if ts == [] then -1
    else if ts[0].id == id then 0
    else
      var k := IndexOfId(ts[1..], id);
      if k == -1 then -1 else k + 1
  }

  /** -1 means no entry has the id; otherwise the entry found has it and none before it does. */
  lemma {:induction false} IndexOfIdFacts(ts: seq<Task>, id: Option<int>)
    ensures IndexOfId(ts, id) == -1 <==> forall j :: 0 <= j < |ts| ==> ts[j].id != id
    ensures IndexOfId(ts, id) >= 0 ==> ts[IndexOfId(ts, id)].id == id && forall j :: 0 <= j < IndexOfId(ts, id) ==> ts[j].id != id
  {
    if ts != [] && ts[0].id != id {
      IndexOfIdFacts(ts[1..], id);
      assert forall j :: 1 <= j < |ts| ==> ts[j] == ts[1..][j - 1];
    }
  }

  /** `project.getTasks().remove(task)`: the first entry for the task leaves the list. */
  function RemoveFirstWithId(ts: seq<Task>, id: Option<int>): seq<Task> {
    if ts == [] then []
    else if ts[0].id == id then ts[1..]
    else [ts[0]] + RemoveFirstWithId(ts[1..], id)
  }

  /**
   * Removal takes out exactly the first entry for the task and keeps the
   * others in order; without one the list is unchanged.
   */
  lemma {:induction false} RemoveFirstWithIdSlices(ts: seq<Task>, id: Option<int>)
    ensures IndexOfId(ts, id) == -1 ==> RemoveFirstWithId(ts, id) == ts
    ensures IndexOfId(ts, id) >= 0 ==>
      RemoveFirstWithId(ts, id) == ts[..IndexOfId(ts, id)] + ts[IndexOfId(ts, id) + 1..]
  {
    if ts != [] && ts[0].id != id {
      var tail := ts[1..];
      RemoveFirstWithIdSlices(tail, id);
      var k := IndexOfId(tail, id);
      assert RemoveFirstWithId(ts, id) == [ts[0]] + RemoveFirstWithId(tail, id);
      if k >= 0 {
        assert IndexOfId(ts, id) == k + 1;
        SpliceCons(ts, k);
      } else {
        assert IndexOfId(ts, id) == -1;
        assert [ts[0]] + tail == ts;
      }
    }
  }

  /** Removing position `k + 1` of a list is keeping its head and removing position `k` of its tail. */
  lemma SpliceCons(ts: seq<Task>, k: int)
    requires 0 <= k < |ts| - 1
    ensures [ts[0]] + (ts[1..][..k] + ts[1..][k + 1..]) == ts[..k + 1] + ts[k + 2..]
  {
    assert ts[1..][..k] == ts[1..k + 1];
    assert ts[1..][k + 1..] == ts[k + 2..];
    assert [ts[0]] + ts[1..k + 1] == ts[..k + 1];
  }

  /** Removal drops exactly one entry when the task is listed. */
  lemma {:induction false} RemoveFirstWithIdCount(ts: seq<Task>, id: Option<int>)
    ensures IndexOfId(ts, id) >= 0 ==>
      |RemoveFirstWithId(ts, id)| == |ts| - 1
      && multiset(RemoveFirstWithId(ts, id)) + multiset{ts[IndexOfId(ts, id)]} == multiset(ts)
  {
    var k := IndexOfId(ts, id);
    RemoveFirstWithIdSlices(ts, id);
    if k >= 0 {
      var pre, post := ts[..k], ts[k + 1..];
      assert ts == pre + [ts[k]] + post;
      assert multiset(ts) == multiset(pre) + multiset{ts[k]} + multiset(post);
      assert multiset(pre + post) == multiset(pre) + multiset(post);
    }
  }

  /** `unassignTaskFromProject`: the task's project is cleared and its first entry leaves the list. */
  function UnassignTask(t: Task, p: Project): (Task, Project) {
    (t.(project := None), p.(tasks := RemoveFirstWithId(p.tasks, t.id)))
  }

  /** `validateTaskAssignmentToProject`: the task's project is present and has the project's id. */
  predicate AssignedTo(t: Task, p: Project) {
    t.project.Some? && p.id.Some? && t.project.value == p.id.value
  }

  // ---------------------------------------------------------------------------
  // How a project's list reloads after a task row changes
  // ---------------------------------------------------------------------------

  /** Each task row is stored under its own id. */
  predicate IdsMatch(tasks: map<int, Task>) {
    forall k :: k in tasks ==> tasks[k].id == Some(k)
  }

  lemma RowsAtUpdateOutside(m: map<int, Task>, k: int, v: Task, ks: seq<int>)
    requires forall i :: 0 <= i < |ks| ==> ks[i] in m
    requires k !in ks
    ensures RowsAt(m[k := v], ks) == RowsAt(m, ks)
  {
    assert forall i :: 0 <= i < |ks| ==> ks[i] != k;
  }

  /** Changing a row that is in the project neither before nor after leaves the project's list as it was. */
  lemma {:induction false} WithProjectUnaffected(m: map<int, Task>, k: int, v: Task, ks: seq<int>, pid: int)
    requires forall i :: 0 <= i < |ks| ==> ks[i] in m
    requires k in m && m[k].project != Some(pid) && v.project != Some(pid)
    ensures WithProject(RowsAt(m[k := v], ks), pid) == WithProject(RowsAt(m, ks), pid)
  {
    if ks != [] {
      var a := RowsAt(m[k := v], ks);
      var b := RowsAt(m, ks);
      assert a[1..] == RowsAt(m[k := v], ks[1..]);
      assert b[1..] == RowsAt(m, ks[1..]);
      WithProjectUnaffected(m, k, v, ks[1..], pid);
    }
  }

  /** The project's list of a list with a head row. */
  lemma WithProjectCons(h: Task, ts: seq<Task>, pid: int)
    ensures WithProject([h] + ts, pid) == (if h.project == Some(pid) then [h] else []) + WithProject(ts, pid)
  {
    assert ([h] + ts)[0] == h && ([h] + ts)[1..] == ts;
  }

  /** The rows at a non-empty key list are the head row followed by the rows at the rest. */
  lemma RowsAtCons(m: map<int, Task>, ks: seq<int>)
    requires ks != [] && forall i :: 0 <= i < |ks| ==> ks[i] in m
    ensures RowsAt(m, ks) == [m[ks[0]]] + RowsAt(m, ks[1..])
  {
  }

  /** The tail of a strictly increasing key list is strictly increasing and above its head. */
  lemma IncreasingTail(ks: seq<int>)
    requires ks != [] && StrictlyIncreasing(ks)
    ensures StrictlyIncreasing(ks[1..]) && ks[0] !in ks[1..]
  {
    var rest := ks[1..];
    forall i, j | 0 <= i < j < |rest| ensures rest[i] < rest[j] {
      assert rest[i] == ks[i + 1] && rest[j] == ks[j + 1];
    }
    forall i | 0 <= i < |rest| ensures rest[i] != ks[0] {
      assert rest[i] == ks[i + 1];
    }
  }

  /** Taking a listed row out of the project removes its entry from the project's list, and nothing else. */
  lemma {:induction false} WithProjectLeaving(m: map<int, Task>, k: int, v: Task, ks: seq<int>, pid: int)
    requires forall i :: 0 <= i < |ks| ==> ks[i] in m
    requires StrictlyIncreasing(ks) && IdsMatch(m)
    requires k in m && m[k].project == Some(pid) && v.project != Some(pid)
    ensures WithProject(RowsAt(m[k := v], ks), pid) == RemoveFirstWithId(WithProject(RowsAt(m, ks), pid), Some(k))
  {
    if ks == [] {
    } else if ks[0] == k {
      LeavingAtHead(m, k, v, ks, pid);
    } else {
      IncreasingTail(ks);
      WithProjectLeaving(m, k, v, ks[1..], pid);
      LeavingAfterHead(m, k, v, ks, pid);
    }
  }

  /** The row at the head of the keys leaves: the list loses its head entry. */
  lemma LeavingAtHead(m: map<int, Task>, k: int, v: Task, ks: seq<int>, pid: int)
    requires forall i :: 0 <= i < |ks| ==> ks[i] in m
    requires StrictlyIncreasing(ks) && IdsMatch(m)
    requires k in m && m[k].project == Some(pid) && v.project != Some(pid)
    requires ks != [] && ks[0] == k
    ensures WithProject(RowsAt(m[k := v], ks), pid) == RemoveFirstWithId(WithProject(RowsAt(m, ks), pid), Some(k))
  {
    var rest := ks[1..];
    IncreasingTail(ks);
    RowsAtCons(m, ks);
    RowsAtCons(m[k := v], ks);
    var tailB := WithProject(RowsAt(m, rest), pid);
    RowsAtUpdateOutside(m, k, v, rest);
    WithProjectCons(v, RowsAt(m[k := v], rest), pid);
    WithProjectCons(m[k], RowsAt(m, rest), pid);
    assert WithProject(RowsAt(m[k := v], ks), pid) == tailB;
    assert WithProject(RowsAt(m, ks), pid) == [m[k]] + tailB;
    RemoveFirstWithIdHead(m[k], tailB, Some(k));
  }

  /** A row after the head of the keys leaves: the head entry stays and removal goes on in the tail. */
  lemma LeavingAfterHead(m: map<int, Task>, k: int, v: Task, ks: seq<int>, pid: int)
    requires forall i :: 0 <= i < |ks| ==> ks[i] in m
    requires IdsMatch(m) && k in m
    requires ks != [] && ks[0] != k
    requires WithProject(RowsAt(m[k := v], ks[1..]), pid) == RemoveFirstWithId(WithProject(RowsAt(m, ks[1..]), pid), Some(k))
    ensures WithProject(RowsAt(m[k := v], ks), pid) == RemoveFirstWithId(WithProject(RowsAt(m, ks), pid), Some(k))
  {
    RowsAtCons(m, ks);
    RowsAtCons(m[k := v], ks);
    assert (m[k := v])[ks[0]] == m[ks[0]] && m[ks[0]].id == Some(ks[0]);
    KeptHead(m[ks[0]], RowsAt(m[k := v], ks[1..]), RowsAt(m, ks[1..]), pid, Some(k));
  }

  /** A head entry for another task is kept on both sides of a removal. */
  lemma KeptHead(h: Task, a: seq<Task>, b: seq<Task>, pid: int, id: Option<int>)
    requires h.id != id
    requires WithProject(a, pid) == RemoveFirstWithId(WithProject(b, pid), id)
    ensures WithProject([h] + a, pid) == RemoveFirstWithId(WithProject([h] + b, pid), id)
  {
    WithProjectCons(h, a, pid);
    WithProjectCons(h, b, pid);
    if h.project == Some(pid) {
      assert WithProject([h] + b, pid) == [h] + WithProject(b, pid);
      RemoveFirstWithIdCons(h, WithProject(b, pid), id);
    } else {
      assert WithProject([h] + a, pid) == WithProject(a, pid);
      assert WithProject([h] + b, pid) == WithProject(b, pid);
    }
  }

  /** The entry for the task at the head is the one removed. */
  lemma RemoveFirstWithIdHead(h: Task, ts: seq<Task>, id: Option<int>)
    requires h.id == id
    ensures RemoveFirstWithId([h] + ts, id) == ts
  {
    assert ([h] + ts)[1..] == ts;
  }

  /** An entry for another task at the head is kept, and removal goes on in the tail. */
  lemma RemoveFirstWithIdCons(h: Task, ts: seq<Task>, id: Option<int>)
    requires h.id != id
    ensures RemoveFirstWithId([h] + ts, id) == [h] + RemoveFirstWithId(ts, id)
  {
    assert ([h] + ts)[1..] == ts;
  }

  /** Changing one stored row that stays outside the project leaves the project's loaded list as it was. */
  lemma TasksOfUnaffected(tasks: map<int, Task>, k: int, v: Task, pid: int)
    requires k in tasks && tasks[k].project != Some(pid) && v.project != Some(pid)
    requires tasks[k := v].Keys == tasks.Keys
    ensures TasksOf(tasks[k := v], pid) == TasksOf(tasks, pid)
  {
    var ks := KeysAscending(tasks.Keys);
    KeysAscendingFacts(tasks.Keys);
    assert forall i :: 0 <= i < |ks| ==> ks[i] in ks;
    WithProjectUnaffected(tasks, k, v, ks, pid);
  }

  /** Unlinking a listed task removes exactly its entry from the project's loaded list. */
  lemma TasksOfLeaving(tasks: map<int, Task>, k: int, v: Task, pid: int)
    requires IdsMatch(tasks)
    requires k in tasks && tasks[k].project == Some(pid) && v.project != Some(pid)
    ensures TasksOf(tasks[k := v], pid) == RemoveFirstWithId(TasksOf(tasks, pid), Some(k))
  {
    var ks := KeysAscending(tasks.Keys);
    KeysAscendingFacts(tasks.Keys);
    assert tasks[k := v].Keys == tasks.Keys;
    assert forall i :: 0 <= i < |ks| ==> ks[i] in ks;
    WithProjectLeaving(tasks, k, v, ks, pid);
  }

  /**
   * After a link is saved, the task is in the target project's loaded list and
   * in no other project's, so both sides of the relationship agree.
   */
  lemma LinkedTaskListedOnce(tasks: map<int, Task>, tid: int, pid: int, linked: Task, after: map<int, Task>)
    requires IdsMatch(tasks) && tid in tasks
    requires linked == tasks[tid].(project := Some(pid)) && after == tasks[tid := linked]
    ensures linked in TasksOf(after, pid)
    ensures forall q, i :: q != pid && 0 <= i < |TasksOf(after, q)| ==> TasksOf(after, q)[i].id != Some(tid)
  {
    assert linked in after.Values;
    TasksOfMembership(after, pid, linked);
    forall q, i | q != pid && 0 <= i < |TasksOf(after, q)| ensures TasksOf(after, q)[i].id != Some(tid) {
      var x := TasksOf(after, q)[i];
      TasksOfMembership(after, q, x);
      var k :| k in after && after[k] == x;
      assert x.project == Some(q) && after[tid].project == Some(pid);
      assert k != tid;
      assert x == tasks[k] && x.id == Some(k);
    }
  }

  /**
   * Linking a task that is already in the project lists it twice in the
   * returned project: once as loaded and once appended.
   */
  lemma LinkAgainListsTwice(row: ProjectRow, tasks: map<int, Task>, tid: int)
    requires row.id.Some? && tid in tasks && tasks[tid].project == row.id
    ensures var (t2, p2) := AssignTask(tasks[tid], LoadProject(row, tasks));
      && p2.tasks[|p2.tasks| - 1] == t2
      && exists i :: 0 <= i < |p2.tasks| - 1 && p2.tasks[i] == t2
  {
    var p := LoadProject(row, tasks);
    var (t2, p2) := AssignTask(tasks[tid], p);
    assert t2 == tasks[tid];
    TasksOfMembership(tasks, row.id.value, t2);
    var i :| 0 <= i < |p.tasks| && p.tasks[i] == t2;
    assert p2.tasks[i] == t2;
  }

  /**
   * The project an unlinking returns is the project as it would be loaded
   * again: its first entry for the task removed, the rest in order.
   */
  lemma UnlinkMatchesReload(row: ProjectRow, tasks: map<int, Task>, tid: int)
    requires IdsMatch(tasks) && row.id.Some? && tid in tasks
    requires AssignedTo(tasks[tid], LoadProject(row, tasks))
    ensures var (t2, p2) := UnassignTask(tasks[tid], LoadProject(row, tasks));
      p2 == LoadProject(row, tasks[tid := t2])
  {
    var t2 := tasks[tid].(project := None);
    TasksOfLeaving(tasks, tid, t2, row.id.value);
  }

  /**
   * Unassigning a stored task from the project it names changes the task's
   * key only, and leaves in memory the project as it reloads afterwards.
   */
  lemma UnassignMatchesReload(row: ProjectRow, tasks: map<int, Task>, t: Task)
    requires IdsMatch(tasks) && row.id.Some? && t.id.Some? && t.id.value in tasks && tasks[t.id.value] == t
    requires t.project == row.id
    ensures UnassignTask(t, LoadProject(row, tasks)).0 == t.(project := None)
    ensures UnassignTask(t, LoadProject(row, tasks)).1 == LoadProject(row, tasks[t.id.value := t.(project := None)])
    ensures RowOf(UnassignTask(t, LoadProject(row, tasks)).1) == row
  {
    UnlinkMatchesReload(row, tasks, t.id.value);
  }

  /** Linking a task from outside a project and unlinking it again leaves the project's loaded list as it was. */
  lemma LinkUnlinkRoundTrip(tasks: map<int, Task>, tid: int, pid: int)
    requires IdsMatch(tasks) && tid in tasks && tasks[tid].project != Some(pid)
    ensures var linked := tasks[tid].(project := Some(pid));
      var unlinked := linked.(project := None);
      TasksOf(tasks[tid := linked][tid := unlinked], pid) == TasksOf(tasks, pid)
  {
    var unlinked := tasks[tid].(project := None);
    assert tasks[tid := tasks[tid].(project := Some(pid))][tid := unlinked] == tasks[tid := unlinked];
    assert tasks[tid := unlinked].Keys == tasks.Keys;
    TasksOfUnaffected(tasks, tid, unlinked, pid);
  }

  // ---------------------------------------------------------------------------
  // The service
  // ---------------------------------------------------------------------------

  /** `ProjectService`, holding both repositories. */
  class ProjectService {
    const projectRepository: ProjectRepository
    const taskRepository: TaskRepository

    constructor (projects: ProjectRepository, tasks: TaskRepository)
      ensures projectRepository == projects && taskRepository == tasks
    {
      projectRepository := projects;
      taskRepository := tasks;
    }

    /** `createProject`: a new row under the next id; the response has no tasks. */
    method CreateProject(dto: ProjectRequest) returns (r: ProjectResponse)
      requires projectRepository.Valid()
      modifies projectRepository
      ensures projectRepository.Valid()
      ensures var id := old(projectRepository.nextId);
        && projectRepository.rows == old(projectRepository.rows)[id := ProjectRow(Some(id), dto.name, dto.description)]
        && projectRepository.nextId == id + 1
        && r == ProjectResponse(Some(id), dto.name, dto.description, [])
    {
      var project := ProjectMapper.ToEntity(dto);
      var saved := projectRepository.Save(RowOf(project));
      r := ProjectMapper.ToDTO(project.(id := saved.id));
    }

    /** `getAllProjects`: every stored project with its loaded tasks, in the order `findAll()` lists them. */
    method GetAllProjects() returns (r: seq<ProjectResponse>)
      ensures |r| == |projectRepository.FindAll()|
      ensures forall i :: 0 <= i < |r| ==>
        r[i] == ProjectMapper.ToDTO(LoadProject(projectRepository.FindAll()[i], taskRepository.rows))
    {
      var rows := projectRepository.FindAll();
      var tasks := taskRepository.rows;
      r := seq(|rows|, i requires 0 <= i < |rows| => ProjectMapper.ToDTO(LoadProject(rows[i], tasks)));
    }

    /** `getProjectById`: the stored project with its tasks, or ProjectNotFound. */
    method GetProjectById(id: int) returns (r: Result<ProjectResponse, ServiceError>)
      ensures id in projectRepository.rows ==>
        r == Success(ProjectMapper.ToDTO(LoadProject(projectRepository.rows[id], taskRepository.rows)))
      ensures id !in projectRepository.rows ==> r == Failure(ProjectNotFound(id))
    {
      var found := projectRepository.FindById(id);
      if found.None? {
        return Failure(ProjectNotFound(id));
      }
      r := Success(ProjectMapper.ToDTO(LoadProject(found.value, taskRepository.rows)));
    }

    /** `updateProject`: name and description replaced, tasks untouched; or ProjectNotFound and nothing saved. */
    method UpdateProject(id: int, dto: ProjectRequest) returns (r: Result<ProjectResponse, ServiceError>)
      requires projectRepository.Valid()
      modifies projectRepository
      ensures projectRepository.Valid() && projectRepository.nextId == old(projectRepository.nextId)
      ensures id !in old(projectRepository.rows) ==>
        r == Failure(ProjectNotFound(id)) && projectRepository.rows == old(projectRepository.rows)
      ensures id in old(projectRepository.rows) ==>
        && projectRepository.rows == old(projectRepository.rows)[id := ProjectRow(Some(id), dto.name, dto.description)]
        && r == Success(ProjectMapper.ToDTO(Project(Some(id), dto.name, dto.description, TasksOf(taskRepository.rows, id))))
    {
      var found := projectRepository.FindById(id);
      if found.None? {
        return Failure(ProjectNotFound(id));
      }
      var project := UpdateDetails(LoadProject(found.value, taskRepository.rows), dto);
      var saved := projectRepository.Save(RowOf(project));
      r := Success(ProjectMapper.ToDTO(project));
    }

    /**
     * `deleteProject`: removes exactly that row, or is ProjectNotFound and
     * removes nothing. Task rows are not touched.
     */
    method DeleteProject(id: int) returns (err: Option<ServiceError>)
      requires projectRepository.Valid()
      modifies projectRepository
      ensures projectRepository.Valid() && projectRepository.nextId == old(projectRepository.nextId)
      ensures id !in old(projectRepository.rows) ==>
        err == Some(ProjectNotFound(id)) && projectRepository.rows == old(projectRepository.rows)
      ensures id in old(projectRepository.rows) ==>
        err.None? && projectRepository.rows == old(projectRepository.rows) - {id}
    {
      if id !in projectRepository.rows {
        return Some(ProjectNotFound(id));
      }
      projectRepository.DeleteById(id);
      err := None;
    }

    /** `saveTaskAndProject`: the task row, then the project's columns. */
    method SaveTaskAndProject(t: Task, p: Project)
      requires projectRepository.Valid() && taskRepository.Valid()
      requires t.id.Some? && t.id.value in taskRepository.rows
      requires p.id.Some? && p.id.value in projectRepository.rows
      modifies projectRepository, taskRepository
      ensures projectRepository.Valid() && taskRepository.Valid()
      ensures taskRepository.rows == old(taskRepository.rows)[t.id.value := t]
      ensures projectRepository.rows == old(projectRepository.rows)[p.id.value := RowOf(p)]
      ensures taskRepository.nextId == old(taskRepository.nextId)
      ensures projectRepository.nextId == old(projectRepository.nextId)
    {
      var savedTask := taskRepository.Save(t);
      var savedProject := projectRepository.Save(RowOf(p));
    }

    /**
     * `addTaskToProject`: the project is looked up first, then the task. The
     * task row now names the project; no project row changes; the response is
     * the loaded project with the task appended.
     */
    method AddTaskToProject(projectId: int, taskId: int) returns (r: Result<ProjectResponse, ServiceError>)
      requires projectRepository.Valid() && taskRepository.Valid()
      modifies projectRepository, taskRepository
      ensures projectRepository.Valid() && taskRepository.Valid()
      ensures projectRepository.rows == old(projectRepository.rows)
      ensures projectRepository.nextId == old(projectRepository.nextId)
      ensures taskRepository.nextId == old(taskRepository.nextId)
      ensures projectId !in old(projectRepository.rows) ==>
        r == Failure(ProjectNotFound(projectId)) && taskRepository.rows == old(taskRepository.rows)
      ensures projectId in old(projectRepository.rows) && taskId !in old(taskRepository.rows) ==>
        r == Failure(TaskNotFound(taskId)) && taskRepository.rows == old(taskRepository.rows)
      ensures projectId in old(projectRepository.rows) && taskId in old(taskRepository.rows) ==>
        var linked := old(taskRepository.rows)[taskId].(project := Some(projectId));
        && taskRepository.rows == old(taskRepository.rows)[taskId := linked]
        && r == Success(ProjectMapper.ToDTO(
             AssignTask(old(taskRepository.rows)[taskId],
                        LoadProject(old(projectRepository.rows)[projectId], old(taskRepository.rows))).1))
    {
      var foundProject := projectRepository.FindById(projectId);
      if foundProject.None? {
        return Failure(ProjectNotFound(projectId));
      }
      var foundTask := taskRepository.FindById(taskId);
      if foundTask.None? {
        return Failure(TaskNotFound(taskId));
      }
      var project := LoadProject(foundProject.value, taskRepository.rows);
      var (task, updated) := AssignTask(foundTask.value, project);
      assert RowOf(updated) == foundProject.value by {
        RowOfLoad(foundProject.value, taskRepository.rows);
      }
      SaveTaskAndProject(task, updated);
      assert old(projectRepository.rows)[projectId := foundProject.value] == old(projectRepository.rows);
      r := Success(ProjectMapper.ToDTO(updated));
    }

    /**
     * `removeTaskFromProject`: the project, then the task, must exist, and the
     * task must be assigned to the project, or nothing changes. Otherwise the
     * task row loses its project and the response is the loaded project
     * without the task's entry.
     */
    method RemoveTaskFromProject(projectId: int, taskId: int) returns (r: Result<ProjectResponse, ServiceError>)
      requires projectRepository.Valid() && taskRepository.Valid()
      modifies projectRepository, taskRepository
      ensures projectRepository.Valid() && taskRepository.Valid()
      ensures projectRepository.rows == old(projectRepository.rows)
      ensures projectRepository.nextId == old(projectRepository.nextId)
      ensures taskRepository.nextId == old(taskRepository.nextId)
      ensures projectId !in old(projectRepository.rows) ==>
        r == Failure(ProjectNotFound(projectId)) && taskRepository.rows == old(taskRepository.rows)
      ensures projectId in old(projectRepository.rows) && taskId !in old(taskRepository.rows) ==>
        r == Failure(TaskNotFound(taskId)) && taskRepository.rows == old(taskRepository.rows)
      ensures (projectId in old(projectRepository.rows) && taskId in old(taskRepository.rows)
               && old(taskRepository.rows)[taskId].project != Some(projectId)) ==>
        r == Failure(InvalidAssignment) && taskRepository.rows == old(taskRepository.rows)
      ensures (projectId in old(projectRepository.rows) && taskId in old(taskRepository.rows)
               && old(taskRepository.rows)[taskId].project == Some(projectId)) ==>
        var unlinked := old(taskRepository.rows)[taskId].(project := None);
        && taskRepository.rows == old(taskRepository.rows)[taskId := unlinked]
        && r == Success(ProjectMapper.ToDTO(LoadProject(old(projectRepository.rows)[projectId], taskRepository.rows)))
    {
      var foundProject := projectRepository.FindById(projectId);
      if foundProject.None? {
        return Failure(ProjectNotFound(projectId));
      }
      var foundTask := taskRepository.FindById(taskId);
      if foundTask.None? {
        return Failure(TaskNotFound(taskId));
      }
      assert foundProject.value.id == Some(projectId);
      assert foundTask.value.id == Some(taskId);
      var project := LoadProject(foundProject.value, taskRepository.rows);
      if !AssignedTo(foundTask.value, project) {
        return Failure(InvalidAssignment);
      }
      var response := UnassignAndSave(foundProject.value, foundTask.value);
      r := Success(response);
    }

    /**
     * The last steps of `removeTaskFromProject` for a task assigned to the
     * stored project `row`: unassign it, save both, and map the project as it
     * is in memory, which is the project as it now reloads.
     */
    method UnassignAndSave(row: ProjectRow, t: Task) returns (r: ProjectResponse)
      requires projectRepository.Valid() && taskRepository.Valid()
      requires row.id.Some? && row.id.value in projectRepository.rows && projectRepository.rows[row.id.value] == row
      requires t.id.Some? && t.id.value in taskRepository.rows && taskRepository.rows[t.id.value] == t
      requires t.project == row.id
      modifies projectRepository, taskRepository
      ensures projectRepository.Valid() && taskRepository.Valid()
      ensures projectRepository.rows == old(projectRepository.rows)
      ensures projectRepository.nextId == old(projectRepository.nextId)
      ensures taskRepository.nextId == old(taskRepository.nextId)
      ensures taskRepository.rows == old(taskRepository.rows)[t.id.value := t.(project := None)]
      ensures r == ProjectMapper.ToDTO(LoadProject(row, taskRepository.rows))
    {
      var project := LoadProject(row, taskRepository.rows);
      var unassigned := UnassignTask(t, project);
      UnassignMatchesReload(row, taskRepository.rows, t);
      SaveTaskAndProject(unassigned.0, unassigned.1);
      assert old(projectRepository.rows)[row.id.value := row] == old(projectRepository.rows);
      r := ProjectMapper.ToDTO(unassigned.1);
    }
  }
}
