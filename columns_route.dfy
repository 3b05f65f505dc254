/** The columns endpoint: list a project's columns, add a column, move a
    column to another rank. */
module ColumnsRoute {
  import opened Schema
  import opened Store
  import Query

  /** The body of a create request; nothing in it is checked. */
  datatype ColumnPost = ColumnPost(projectId: Option<int>, name: Option<string>, position: Option<int>)

  function ColumnPosition(c: Column): int { c.position }

  /** The ids of the columns of project `p`; none when `p` is absent. */
  ghost function ColumnIdsInProject(columns: map<int, Column>, p: Option<int>): set<int> {
    set k | k in columns && Some(columns[k].projectId) == p
  }

  /** `SELECT * FROM columns WHERE project_id = ? ORDER BY position`. A request
      without the parameter binds NULL, which matches no row. */
  function Get(db: Database, projectId: Option<int>): (r: seq<Column>)
    reads db
    requires db.Valid()
    ensures forall i, j :: 0 <= i < j < |r| ==> r[i].position <= r[j].position
    ensures forall c :: c in r <==> projectId.Some? && c.id in db.columns && db.columns[c.id] == c && c.projectId == projectId.value
    ensures |r| == |ColumnIdsInProject(db.columns, projectId)|
  {
    if projectId.None? then
      assert ColumnIdsInProject(db.columns, projectId) == {};
      []
    else
      var p := (c: Column) => c.projectId == projectId.value;
      var r := Query.Select(db.columns, db.lastColumnId + 1, p, ColumnPosition);
      SelectedColumns(db.columns, projectId.value, p, r);
      r
  }

  /** Reads the generic query contract back in terms of column ids and the project filter. */
  lemma SelectedColumns(m: map<int, Column>, pid: int, p: Column -> bool, r: seq<Column>)
    requires forall k :: k in m ==> m[k].id == k
    requires forall c :: p(c) == (c.projectId == pid)
    requires forall c :: c in r <==> (exists k :: k in m && m[k] == c) && p(c)
    requires |r| == |Query.Matching(m, p)|
    requires Query.SortedBy(r, ColumnPosition)
    ensures forall i, j :: 0 <= i < j < |r| ==> r[i].position <= r[j].position
    ensures forall c :: c in r <==> c.id in m && m[c.id] == c && c.projectId == pid
    ensures |r| == |ColumnIdsInProject(m, Some(pid))|
  {
    assert Query.Matching(m, p) == ColumnIdsInProject(m, Some(pid));
    forall c ensures c in r <==> c.id in m && m[c.id] == c && c.projectId == pid {
      if c.id in m && m[c.id] == c {
        assert exists k :: k in m && m[k] == c;
      }
    }
  }

  /** The create handler. The caller's position is stored as given. A
      missing field violates NOT NULL and an unknown project violates the
      foreign key; either makes the insert fail with nothing written.
      Otherwise the reply echoes the sent fields with the new id. */
  method Post(db: Database, req: ColumnPost) returns (resp: Response<Column>)
    requires db.Valid()
    modifies db`columns, db`lastColumnId, db`usedColumnIds
    ensures db.Valid()
    ensures !resp.BadRequest?
    ensures resp.ServerError? <==>
      req.projectId.None? || req.name.None? || req.position.None? || req.projectId.value !in db.projects
    ensures resp.ServerError? ==>
      db.columns == old(db.columns) && db.lastColumnId == old(db.lastColumnId) && db.usedColumnIds == old(db.usedColumnIds)
    ensures resp.Ok? ==>
      var id := db.lastColumnId;
      && id == old(db.lastColumnId) + 1 && id !in old(db.usedColumnIds)
      && resp.body == Column(id, req.projectId.value, req.name.value, req.position.value)
      && db.columns == old(db.columns)[id := resp.body]
  {
    if req.projectId.None? || req.name.None? || req.position.None? || req.projectId.value !in db.projects {
      return ServerError;
    }
    var id := db.InsertColumn(req.projectId.value, req.name.value, req.position.value);
    resp := Ok(Column(id, req.projectId.value, req.name.value, req.position.value));
  }

  /** The update handler: only the position of the column with that id
      changes. An id no row has is a silent no-op that still succeeds; a
      missing position for an existing row violates NOT NULL. */
  method Put(db: Database, id: Option<int>, position: Option<int>) returns (resp: Response<Ack>)
    requires db.Valid()
    modifies db`columns
    ensures db.Valid()
    ensures var hit := id.Some? && id.value in old(db.columns);
      && (resp.ServerError? <==> hit && position.None?)
      && (resp.ServerError? || !hit ==> db.columns == old(db.columns))
      && (!resp.ServerError? ==> resp == Ok(Ack))
      && (hit && position.Some? ==>
            db.columns == old(db.columns)[id.value := old(db.columns)[id.value].(position := position.value)])
  {
    if id.Some? && id.value in db.columns {
      if position.None? {
        return ServerError;
      }
      db.columns := db.columns[id.value := db.columns[id.value].(position := position.value)];
    }
    resp := Ok(Ack);
  }
}
