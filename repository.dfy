/**
 * The two Spring Data repositories as in-memory tables: rows keyed by id and
 * the IDENTITY counter that numbers new rows. `findAll()` and the loading of a
 * project's task list run queries without ORDER BY, so the program fixes no
 * order; the model's choice is ascending id order.
 */
module Repository {
  import opened Wrappers
  import opened Model

  /** A `projects` table row. The task list is the inverse side of `Task.project`, not a column. */
  datatype ProjectRow = ProjectRow(id: Option<int>, name: Option<string>, description: Option<string>)

  // ---------------------------------------------------------------------------
  // Keys in ascending order
  // ---------------------------------------------------------------------------

  lemma NonEmptyHasElement(s: set<int>)
    requires s != {}
    ensures exists k :: k in s
  {
    if forall k :: k !in s {
      assert false;
    }
  }

  lemma {:induction false} LeastElement(s: set<int>) returns (m: int)
    requires s != {}
    ensures m in s && forall k :: k in s ==> m <= k
    decreases |s|
  {
    NonEmptyHasElement(s);
    var x :| x in s;
    var rest := s - {x};
    assert forall k :: k in s ==> k == x || k in rest;
    if rest == {} {
      m := x;
    } else {
      var y := LeastElement(rest);
      m := if x < y then x else y;
    }
  }

  lemma MinExists(s: set<int>)
    requires s != {}
    ensures exists m :: m in s && forall k :: k in s ==> m <= k
  {
    var m := LeastElement(s);
  }

  /** The least element of a non-empty set of ids. */
  function MinOf(s: set<int>): (m: int)
    requires s != {}
    ensures m in s && forall k :: k in s ==> m <= k
  {
    MinExists(s);
    var m :| m in s && forall k :: k in s ==> m <= k;
    m
  }

  predicate StrictlyIncreasing(ks: seq<int>) {
    forall i, j :: 0 <= i < j < |ks| ==> ks[i] < ks[j]
  }

  /** The ids of a set, ascending. */
  function KeysAscending(s: set<int>): seq<int>
    decreases |s|
  {
    if s == {} then []
    else
      var m := MinOf(s);
      [m] + KeysAscending(s - {m})
  }

  /** The ordered ids are exactly the set's, each greater than the one before. */
  lemma {:induction false} KeysAscendingFacts(s: set<int>)
    ensures forall k :: k in KeysAscending(s) <==> k in s
    ensures StrictlyIncreasing(KeysAscending(s))
    decreases |s|
  {
    if s != {} {
      var m := MinOf(s);
      KeysAscendingFacts(s - {m});
      var rest := KeysAscending(s - {m});
      assert forall k :: k in rest ==> m < k;
      IncreasingCons(m, rest);
    }
  }

  /** A key below every key of an increasing list extends it to an increasing list. */
  lemma IncreasingCons(m: int, rest: seq<int>)
    requires StrictlyIncreasing(rest) && forall k :: k in rest ==> m < k
    ensures StrictlyIncreasing([m] + rest)
  {
    var ks := [m] + rest;
    forall i, j | 0 <= i < j < |ks|
      ensures ks[i] < ks[j]
    {
      assert ks[j] == rest[j - 1];
      if i > 0 {
        assert ks[i] == rest[i - 1];
      } else {
        assert rest[j - 1] in rest;
      }
    }
  }

  /** The rows stored under the given keys, in key order. */
  function RowsAt<R>(m: map<int, R>, ks: seq<int>): (r: seq<R>)
    requires forall i :: 0 <= i < |ks| ==> ks[i] in m
    ensures |r| == |ks|
    ensures forall i :: 0 <= i < |ks| ==> r[i] == m[ks[i]]
  {
    if ks == [] then []
    else
      assert forall i :: 0 <= i < |ks| - 1 ==> ks[1..][i] == ks[i + 1];
      [m[ks[0]]] + RowsAt(m, ks[1..])
  }

  /** Every row of a table, in ascending id order (the order the model chooses for a query without ORDER BY). */
  function InIdOrder<R>(m: map<int, R>): (r: seq<R>)
    ensures |r| == |KeysAscending(m.Keys)|
  {
    var ks := KeysAscending(m.Keys);
    KeysAscendingFacts(m.Keys);
    assert forall i :: 0 <= i < |ks| ==> ks[i] in ks;
    RowsAt(m, ks)
  }

  /** The ordered rows are exactly the stored rows. */
  lemma InIdOrderValues<R>(m: map<int, R>, v: R)
    ensures v in InIdOrder(m) <==> v in m.Values
  {
    var ks := KeysAscending(m.Keys);
    KeysAscendingFacts(m.Keys);
    var rows := InIdOrder(m);
    if v in m.Values {
      var k :| k in m && m[k] == v;
      assert k in ks;
      var i :| 0 <= i < |ks| && ks[i] == k;
      assert rows[i] == v;
    }
    if v in rows {
      var i :| 0 <= i < |rows| && rows[i] == v;
      assert ks[i] in ks;
      assert m[ks[i]] == v;
    }
  }

  // ---------------------------------------------------------------------------
  // The inverse side of Task.project
  // ---------------------------------------------------------------------------

  /** The tasks of a list whose project is `pid`, in list order. */
  function WithProject(ts: seq<Task>, pid: int): seq<Task> {
    if ts == [] then []
    else (if ts[0].project == Some(pid) then [ts[0]] else []) + WithProject(ts[1..], pid)
  }

  /** The project's tasks are the tasks of the list that have the project, and no more of them. */
  lemma {:induction false} WithProjectMembership(ts: seq<Task>, pid: int, t: Task)
    ensures |WithProject(ts, pid)| <= |ts|
    ensures t in WithProject(ts, pid) <==> t in ts && t.project == Some(pid)
  {
    if ts != [] {
      WithProjectMembership(ts[1..], pid, t);
      assert t in ts <==> t == ts[0] || t in ts[1..];
    }
  }

  /** `project.getTasks()` when it is loaded: the stored tasks whose project is `pid`, in ascending id order (the model's choice; the lazy load has no ORDER BY). */
  function TasksOf(tasks: map<int, Task>, pid: int): seq<Task> {
    WithProject(InIdOrder(tasks), pid)
  }

  /** A stored task is in its project's list and in no other. */
  lemma TasksOfMembership(tasks: map<int, Task>, pid: int, t: Task)
    ensures t in TasksOf(tasks, pid) <==> t in tasks.Values && t.project == Some(pid)
  {
    InIdOrderValues(tasks, t);
    WithProjectMembership(InIdOrder(tasks), pid, t);
  }

  // ---------------------------------------------------------------------------
  // The repositories
  // ---------------------------------------------------------------------------

  /** `TaskRepository` over the `tasks` table. */
  class TaskRepository {
    var rows: map<int, Task>
    var nextId: int

    /** Each row is stored under its own id, and the counter is above every id. */
    ghost predicate Valid()
      reads this
    {
      nextId >= 1 && forall k :: k in rows ==> 1 <= k < nextId && rows[k].id == Some(k)
    }

    constructor ()
      ensures Valid() && rows == map[] && nextId == 1
    {
      rows := map[];
      nextId := 1;
    }

    /** `findById`. */
    function FindById(id: int): (r: Option<Task>)
      reads this
      ensures r.Some? <==> id in rows
      ensures r.Some? ==> r.value == rows[id]
    {
      if id in rows then Some(rows[id]) else None
    }

    /** `findAll()`. */
    function FindAll(): seq<Task>
      reads this
    {
      InIdOrder(rows)
    }

    /**
     * `save`: a task without an id is inserted under the next IDENTITY value;
     * a task with the id of a stored row replaces that row.
     */
    method Save(t: Task) returns (saved: Task)
      requires Valid()
      requires t.id.Some? ==> t.id.value in rows
      modifies this
      ensures Valid()
      ensures t.id.None? ==>
        saved == t.(id := Some(old(nextId))) && rows == old(rows)[old(nextId) := saved] && nextId == old(nextId) + 1
      ensures t.id.Some? ==> saved == t && rows == old(rows)[t.id.value := t] && nextId == old(nextId)
    {
      if t.id.None? {
        saved := t.(id := Some(nextId));
        rows := rows[nextId := saved];
        nextId := nextId + 1;
      } else {
        saved := t;
        rows := rows[t.id.value := t];
      }
    }

    /** `deleteById`. */
    method DeleteById(id: int)
      requires Valid()
      modifies this
      ensures Valid()
      ensures rows == old(rows) - {id} && nextId == old(nextId)
    {
      rows := rows - {id};
    }
  }

  /** `ProjectRepository` over the `projects` table. */
  class ProjectRepository {
    var rows: map<int, ProjectRow>
    var nextId: int

    ghost predicate Valid()
      reads this
    {
      nextId >= 1 && forall k :: k in rows ==> 1 <= k < nextId && rows[k].id == Some(k)
    }

    constructor ()
      ensures Valid() && rows == map[] && nextId == 1
    {
      rows := map[];
      nextId := 1;
    }

    function FindById(id: int): (r: Option<ProjectRow>)
      reads this
      ensures r.Some? <==> id in rows
      ensures r.Some? ==> r.value == rows[id]
    {
      if id in rows then Some(rows[id]) else None
    }

    function FindAll(): seq<ProjectRow>
      reads this
    {
      InIdOrder(rows)
    }

    method Save(p: ProjectRow) returns (saved: ProjectRow)
      requires Valid()
      requires p.id.Some? ==> p.id.value in rows
      modifies this
      ensures Valid()
      ensures p.id.None? ==>
        saved == p.(id := Some(old(nextId))) && rows == old(rows)[old(nextId) := saved] && nextId == old(nextId) + 1
      ensures p.id.Some? ==> saved == p && rows == old(rows)[p.id.value := p] && nextId == old(nextId)
    {
      if p.id.None? {
        saved := p.(id := Some(nextId));
        rows := rows[nextId := saved];
        nextId := nextId + 1;
      } else {
        saved := p;
        rows := rows[p.id.value := p];
      }
    }

    method DeleteById(id: int)
      requires Valid()
      modifies this
      ensures Valid()
      ensures rows == old(rows) - {id} && nextId == old(nextId)
    {
      rows := rows - {id};
    }
  }
}
