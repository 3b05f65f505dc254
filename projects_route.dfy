/** The projects endpoint: list projects, create a project with its default
    columns, rename a project, delete a project with everything in it. */
module ProjectsRoute {
  import opened Schema
  import opened Store
  import Query

  /** A column every project starts with: its name and its rank. */
  datatype DefaultColumn = DefaultColumn(name: string, position: int)

  /** The columns a new project gets, in insertion order. The backfill
      script uses the same list. */
  const DefaultColumns: seq<DefaultColumn> := [
    DefaultColumn("Backlog", 0),
    DefaultColumn("To Do", 1),
    DefaultColumn("In Progress", 2),
    DefaultColumn("Review", 3),
    DefaultColumn("Done", 4)
  ]

  /** The default columns in list order, each ranked by its place in the list. */
  lemma DefaultColumnsRanked()
    ensures |DefaultColumns| == 5
    ensures forall i :: 0 <= i < |DefaultColumns| ==> DefaultColumns[i].position == i
    ensures [DefaultColumns[0].name, DefaultColumns[1].name, DefaultColumns[2].name,
             DefaultColumns[3].name, DefaultColumns[4].name] ==
            ["Backlog", "To Do", "In Progress", "Review", "Done"]
  {
  }

  /** The creation time a project sorts by; a missing one (NULL) sorts below every time. */
  function CreatedKey(p: Project): (r: int)
    ensures p.createdAt.Some? ==> r == p.createdAt.value
    ensures p.createdAt.None? ==> r < 0
  {
    if p.createdAt.Some? then p.createdAt.value else -1
  }

  /** The ascending sort key of `ORDER BY created_at DESC`. */
  function NewestFirst(p: Project): int { -CreatedKey(p) }

  function AnyProject(p: Project): bool { true }

  /** `SELECT * FROM projects ORDER BY created_at DESC`: every project once,
      newest first. */
  function Get(db: Database): (r: seq<Project>)
    reads db
    requires db.Valid()
    ensures forall i, j :: 0 <= i < j < |r| ==> CreatedKey(r[i]) >= CreatedKey(r[j])
    ensures forall p :: p in r <==> p.id in db.projects && db.projects[p.id] == p
    ensures |r| == |db.projects|
  {
    var r := Query.Select(db.projects, db.lastProjectId + 1, AnyProject, NewestFirst);
    SelectedProjects(db.projects, r);
    r
  }

  /** Reads the generic query contract back in terms of project ids and the descending order. */
  lemma SelectedProjects(m: map<int, Project>, r: seq<Project>)
    requires forall k :: k in m ==> m[k].id == k
    requires forall p :: p in r <==> (exists k :: k in m && m[k] == p) && AnyProject(p)
    requires |r| == |Query.Matching(m, AnyProject)|
    requires Query.SortedBy(r, NewestFirst)
    ensures forall i, j :: 0 <= i < j < |r| ==> CreatedKey(r[i]) >= CreatedKey(r[j])
    ensures forall p :: p in r <==> p.id in m && m[p.id] == p
    ensures |r| == |m|
  {
    assert Query.Matching(m, AnyProject) == m.Keys;
    forall p ensures p in r <==> p.id in m && m[p.id] == p {
      if p.id in m && m[p.id] == p {
        assert exists k :: k in m && m[k] == p;
      }
    }
  }

  /** The first `n` default columns of project `pid`, given the ids
      `base + 1`, `base + 2`, ... in list order. */
  function DefaultColumnsFor(pid: int, base: int, n: nat): (r: map<int, Column>)
    requires n <= |DefaultColumns|
    ensures forall k :: k in r <==> base < k <= base + n
    ensures forall k :: k in r ==>
      r[k] == Column(k, pid, DefaultColumns[k - base - 1].name, DefaultColumns[k - base - 1].position)
  {
    if n == 0 then map[]
    else
      var d := DefaultColumns[n - 1];
      DefaultColumnsFor(pid, base, n - 1)[base + n := Column(base + n, pid, d.name, d.position)]
  }

  /** The ids of the columns of project `pid`. */
  ghost function ColumnsOf(columns: map<int, Column>, pid: int): set<int> {
    set k | k in columns && columns[k].projectId == pid
  }

  /** The body of a create request; nothing in it is checked. */
  datatype ProjectPost = ProjectPost(name: Option<string>, description: Option<string>)

  /** The create handler. Nothing in the request is validated; a missing
      name violates NOT NULL and makes the first insert fail. Otherwise one
      project row and then its five default columns are inserted, and the
      reply carries the new id with the sent name and description. */
  method Post(db: Database, req: ProjectPost, now: nat)
    returns (resp: Response<Project>)
    requires db.Valid()
    modifies db`projects, db`lastProjectId, db`usedProjectIds, db`columns, db`lastColumnId, db`usedColumnIds
    ensures db.Valid()
    ensures !resp.BadRequest?
    ensures resp.ServerError? <==> req.name.None?
    ensures resp.ServerError? ==>
      && db.projects == old(db.projects) && db.lastProjectId == old(db.lastProjectId)
      && db.usedProjectIds == old(db.usedProjectIds)
      && db.columns == old(db.columns) && db.lastColumnId == old(db.lastColumnId)
      && db.usedColumnIds == old(db.usedColumnIds)
    ensures resp.Ok? ==>
      var pid, base := db.lastProjectId, old(db.lastColumnId);
      && pid == old(db.lastProjectId) + 1 && pid !in old(db.usedProjectIds)
      && resp.body == Project(pid, req.name.value, req.description, None)
      && db.projects == old(db.projects)[pid := Project(pid, req.name.value, req.description, Some(now))]
      && db.lastColumnId == base + |DefaultColumns|
      && db.columns == old(db.columns) + DefaultColumnsFor(pid, base, |DefaultColumns|)
      && ColumnsOf(db.columns, pid) == DefaultColumnsFor(pid, base, |DefaultColumns|).Keys
  {
    if req.name.None? {
      return ServerError;
    }
    var pid := db.InsertProject(req.name.value, req.description, now);
    ghost var before := db.columns;
    InsertDefaultColumns(db, pid);
    DefaultColumnsOwned(before, db.columns, pid, old(db.lastColumnId));
    resp := Ok(Project(pid, req.name.value, req.description, None));
  }

  /** The loop of the create handler: one INSERT per default column, in list order. */
  method InsertDefaultColumns(db: Database, pid: int)
    requires db.Valid() && pid in db.projects
    modifies db`columns, db`lastColumnId, db`usedColumnIds
    ensures db.Valid()
    ensures db.lastColumnId == old(db.lastColumnId) + |DefaultColumns|
    ensures db.columns == old(db.columns) + DefaultColumnsFor(pid, old(db.lastColumnId), |DefaultColumns|)
  {
    ghost var base := db.lastColumnId;
    var i := 0;
    while i < |DefaultColumns|
      invariant 0 <= i <= |DefaultColumns|
      invariant db.Valid()
      invariant db.lastColumnId == base + i
      invariant db.columns == old(db.columns) + DefaultColumnsFor(pid, base, i)
    {
      var column := DefaultColumns[i];
      ghost var before := db.columns;
      var id := db.InsertColumn(pid, column.name, column.position);
      DefaultColumnsStep(old(db.columns), before, db.columns, pid, base, i);
      i := i + 1;
    }
  }

  lemma DefaultColumnsStep(start: map<int, Column>, before: map<int, Column>, after: map<int, Column>,
                           pid: int, base: int, i: nat)
    requires i < |DefaultColumns|
    requires before == start + DefaultColumnsFor(pid, base, i)
    requires after == before[base + i + 1 := Column(base + i + 1, pid, DefaultColumns[i].name, DefaultColumns[i].position)]
    ensures after == start + DefaultColumnsFor(pid, base, i + 1)
  {
  }

  lemma DefaultColumnsOwned(start: map<int, Column>, after: map<int, Column>, pid: int, base: int)
    requires forall k :: k in start ==> start[k].projectId != pid
    requires after == start + DefaultColumnsFor(pid, base, |DefaultColumns|)
    requires forall k :: k in start ==> k <= base
    ensures ColumnsOf(after, pid) == DefaultColumnsFor(pid, base, |DefaultColumns|).Keys
  {
  }

  /** The body of a rename request. */
  datatype ProjectRename = ProjectRename(id: Option<int>, name: Option<string>)

  /** The rename handler: a request without an id or a name is refused;
      otherwise only that project's name changes (nothing, for an unknown id). */
  method Put(db: Database, req: ProjectRename) returns (resp: Response<Ack>)
    requires db.Valid()
    modifies db`projects
    ensures db.Valid()
    ensures resp.BadRequest? <==> FalsyInt(req.id) || FalsyString(req.name)
    ensures resp.BadRequest? ==> db.projects == old(db.projects)
    ensures !resp.BadRequest? ==>
      && resp == Ok(Ack)
      && db.projects == if req.id.value in old(db.projects)
                        then old(db.projects)[req.id.value := old(db.projects)[req.id.value].(name := req.name.value)]
                        else old(db.projects)
  {
    if FalsyInt(req.id) || FalsyString(req.name) {
      return BadRequest("Project ID and name are required");
    }
    if req.id.value in db.projects {
      db.projects := db.projects[req.id.value := db.projects[req.id.value].(name := req.name.value)];
    }
    resp := Ok(Ack);
  }

  /** The delete handler: a request without an id is refused; otherwise the
      project's tasks, then its columns, then the project row are deleted.
      Afterwards no task refers to a deleted column, and every column and
      task of every other project is as it was. */
  method Delete(db: Database, id: Option<int>) returns (resp: Response<Ack>)
    requires db.Valid()
    modifies db`tasks, db`columns, db`projects
    ensures db.Valid()
    ensures resp.BadRequest? <==> FalsyInt(id)
    ensures resp.BadRequest? ==>
      db.projects == old(db.projects) && db.columns == old(db.columns) && db.tasks == old(db.tasks)
    ensures !resp.BadRequest? ==>
      && resp == Ok(Ack)
      && db.tasks == TasksOutsideProject(old(db.tasks), old(db.columns), id.value)
      && db.columns == ColumnsOutsideProject(old(db.columns), id.value)
      && db.projects == old(db.projects) - {id.value}
      && (forall k :: k in db.columns <==> k in old(db.columns) && old(db.columns)[k].projectId != id.value)
      && (forall k :: k in db.tasks <==>
            k in old(db.tasks) && old(db.columns)[old(db.tasks)[k].columnId].projectId != id.value)
      && (forall k :: k in db.columns ==> db.columns[k] == old(db.columns)[k])
      && (forall k :: k in db.tasks ==> db.tasks[k] == old(db.tasks)[k])
  {
    if FalsyInt(id) {
      return BadRequest("Project ID is required");
    }
    var pid := id.value;
    ProjectCascade(db.projects, db.columns, db.tasks, pid);
    // First the tasks in the project's columns, then the columns, then the project.
    db.tasks := TasksOutsideProject(db.tasks, db.columns, pid);
    db.columns := ColumnsOutsideProject(db.columns, pid);
    db.projects := db.projects - {pid};
    resp := Ok(Ack);
  }
}
