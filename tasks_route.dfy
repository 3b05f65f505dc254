/** The tasks endpoint: list a column's tasks, create a task, update one
    aspect of a task, delete a task. */
module TasksRoute {
  import opened Schema
  import opened Store
  import Query

  /** The colour the create handler stores when the request names none. */
  const HandlerDefaultColor: string := "#3B82F6"

  /** The body of a create request. */
  datatype TaskPost = TaskPost(
    columnId: Option<int>, title: Option<string>, description: Option<string>,
    position: Option<int>, color: Option<string>)

  /** The body of an update request: any subset of the fields may be present. */
  datatype TaskPut = TaskPut(
    id: Option<int>, columnId: Option<int>, position: Option<int>,
    priority: Option<int>, color: Option<string>, title: Option<string>)

  /** The one change an update request makes. */
  datatype TaskUpdate =
    | SetPriority(priority: int)
    | SetColor(color: string)
    | SetTitle(title: string)
    | Reposition(columnId: int, position: int)

  /** The body of a delete request. */
  datatype TaskDelete = TaskDelete(id: Option<int>)

  /** The body of a successful update: `{ success: true }`, or the row as read
      back after the write. */
  datatype PutReply = Updated | ReadBack(row: Task)

  function TaskPosition(t: Task): int { t.position }

  /** The ids of the tasks in column `c`; none when `c` is absent. */
  ghost function TaskIdsInColumn(tasks: map<int, Task>, c: Option<int>): set<int> {
    set k | k in tasks && Some(tasks[k].columnId) == c
  }

  /** `SELECT * FROM tasks WHERE column_id = ? ORDER BY position`. A request
      without the parameter binds NULL, which matches no row. */
  function Get(db: Database, columnId: Option<int>): (r: seq<Task>)
    reads db
    requires db.Valid()
    ensures forall i, j :: 0 <= i < j < |r| ==> r[i].position <= r[j].position
    ensures forall t :: t in r <==> columnId.Some? && t.id in db.tasks && db.tasks[t.id] == t && t.columnId == columnId.value
    ensures |r| == |TaskIdsInColumn(db.tasks, columnId)|
  {
    if columnId.None? then
      assert TaskIdsInColumn(db.tasks, columnId) == {};
      []
    else
      var p := (t: Task) => t.columnId == columnId.value;
      var r := Query.Select(db.tasks, db.lastTaskId + 1, p, TaskPosition);
      SelectedTasks(db.tasks, columnId.value, p, r);
      r
  }

  /** Reads the generic query contract back in terms of task ids and the column filter. */
  lemma SelectedTasks(m: map<int, Task>, c: int, p: Task -> bool, r: seq<Task>)
    requires forall k :: k in m ==> m[k].id == k
    requires forall t :: p(t) == (t.columnId == c)
    requires forall t :: t in r <==> (exists k :: k in m && m[k] == t) && p(t)
    requires |r| == |Query.Matching(m, p)|
    requires Query.SortedBy(r, TaskPosition)
    ensures forall i, j :: 0 <= i < j < |r| ==> r[i].position <= r[j].position
    ensures forall t :: t in r <==> t.id in m && m[t.id] == t && t.columnId == c
    ensures |r| == |TaskIdsInColumn(m, Some(c))|
  {
    assert Query.Matching(m, p) == TaskIdsInColumn(m, Some(c));
    forall t ensures t in r <==> t.id in m && m[t.id] == t && t.columnId == c {
      if t.id in m && m[t.id] == t {
        assert exists k :: k in m && m[k] == t;
      }
    }
  }

  /** `color || '#3B82F6'`. */
  function ColorOrDefault(color: Option<string>): (r: string)
    ensures FalsyString(color) ==> r == HandlerDefaultColor && r != SchemaDefaultColor
    ensures !FalsyString(color) ==> r == color.value
  {
    if FalsyString(color) then HandlerDefaultColor else color.value
  }

  /** The create handler. A request without a column id or a title is
      refused before the table is touched; a missing position (NOT NULL) or
      an unknown column (FOREIGN KEY) makes the insert fail. Otherwise the
      row is inserted with the caller's position as given, and the reply
      echoes the sent fields with the new id. */
  method Post(db: Database, req: TaskPost, now: nat) returns (resp: Response<Task>)
    requires db.Valid()
    modifies db`tasks, db`lastTaskId, db`usedTaskIds
    ensures db.Valid()
    ensures resp.BadRequest? <==> FalsyInt(req.columnId) || FalsyString(req.title)
    ensures resp.ServerError? <==>
      !FalsyInt(req.columnId) && !FalsyString(req.title) && (req.position.None? || req.columnId.value !in db.columns)
    ensures !resp.Ok? ==> db.tasks == old(db.tasks) && db.lastTaskId == old(db.lastTaskId) && db.usedTaskIds == old(db.usedTaskIds)
    ensures resp.Ok? ==>
      var id := db.lastTaskId;
      var color := ColorOrDefault(req.color);
      && id == old(db.lastTaskId) + 1 && id !in old(db.usedTaskIds)
      && resp.body == Task(id, req.columnId.value, req.title.value, req.description, req.position.value, Some(color), None, None)
      && db.tasks == old(db.tasks)[id := InsertedTask(id, req.columnId.value, req.title.value, req.description,
                                                      req.position.value, Some(color), now)]
  {
    if FalsyInt(req.columnId) || FalsyString(req.title) {
      return BadRequest("columnId and title are required");
    }
    if req.position.None? || req.columnId.value !in db.columns {
      return ServerError;
    }
    var color := ColorOrDefault(req.color);
    var id := db.InsertTask(req.columnId.value, req.title.value, req.description, req.position.value, Some(color), now);
    resp := Ok(Task(id, req.columnId.value, req.title.value, req.description, req.position.value, Some(color), None, None));
  }

  /** Which change an update request makes: the first present field group
      in the order priority, colour, title, (column id and position); none
      when no group is complete. Fields of later groups are ignored. */
  function Dispatch(req: TaskPut): (u: Option<TaskUpdate>)
    ensures req.priority.Some? ==> u == Some(SetPriority(req.priority.value))
    ensures req.priority.None? && req.color.Some? ==> u == Some(SetColor(req.color.value))
    ensures req.priority.None? && req.color.None? && req.title.Some? ==> u == Some(SetTitle(req.title.value))
    ensures req.priority.None? && req.color.None? && req.title.None? ==>
      u == if req.columnId.Some? && req.position.Some? then Some(Reposition(req.columnId.value, req.position.value)) else None
  {
    if req.priority.Some? then Some(SetPriority(req.priority.value))
    else if req.color.Some? then Some(SetColor(req.color.value))
    else if req.title.Some? then Some(SetTitle(req.title.value))
    else if req.columnId.Some? && req.position.Some? then Some(Reposition(req.columnId.value, req.position.value))
    else None
  }

  /** The row after the single UPDATE statement of `u`. */
  function Apply(t: Task, u: TaskUpdate): (r: Task)
    ensures u.SetPriority? ==> r == t.(priority := Some(u.priority))
    ensures u.SetColor? ==> r == t.(color := Some(u.color))
    ensures u.SetTitle? ==> r == t.(title := u.title)
    ensures u.Reposition? ==> r.columnId == u.columnId && r.position == u.position && r.(columnId := t.columnId, position := t.position) == t
  {
    match u
    case SetPriority(p) => t.(priority := Some(p))
    case SetColor(c) => t.(color := Some(c))
    case SetTitle(s) => t.(title := s)
    case Reposition(c, p) => t.(columnId := c, position := p)
  }

  /** Each update writes its own field group and leaves every other field of the row alone. */
  lemma ApplyWritesOneGroup(t: Task, u: TaskUpdate)
    ensures var r := Apply(t, u);
      && r.id == t.id && r.description == t.description && r.createdAt == t.createdAt
      && (r.priority != t.priority ==> u.SetPriority?)
      && (r.color != t.color ==> u.SetColor?)
      && (r.title != t.title ==> u.SetTitle?)
      && (r.columnId != t.columnId || r.position != t.position ==> u.Reposition?)
  {
  }

  /** The update handler. Only the row with the request's id is written,
      and only in the field group `Dispatch` picks; no sibling's position is
      renumbered. A request with no complete field group changes nothing and
      succeeds. A priority or position update for an id no row has changes
      nothing and succeeds. A colour or title update for such an id reads back
      no row; serialising the missing row throws, and the handler's catch
      answers 500. Moving a row to a column that does not exist violates the
      foreign key and fails. */
  method Put(db: Database, req: TaskPut) returns (resp: Response<PutReply>)
    requires db.Valid()
    modifies db`tasks
    ensures db.Valid()
    ensures var hit := req.id.Some? && req.id.value in old(db.tasks);
      var u := Dispatch(req);
      && (resp.ServerError? <==>
            || (hit && u.Some? && u.value.Reposition? && u.value.columnId !in db.columns)
            || (!hit && u.Some? && (u.value.SetColor? || u.value.SetTitle?)))
      && (!resp.ServerError? && hit && u.Some? ==>
            db.tasks == old(db.tasks)[req.id.value := Apply(old(db.tasks)[req.id.value], u.value)])
      && (resp.ServerError? || !hit || u.None? ==> db.tasks == old(db.tasks))
      && (resp.Ok? && u.Some? && (u.value.SetColor? || u.value.SetTitle?) ==>
            hit && resp.body == ReadBack(db.tasks[req.id.value]))
      && (resp.Ok? && (u.None? || u.value.SetPriority? || u.value.Reposition?) ==> resp.body == Updated)
      && !resp.BadRequest?
    ensures forall k :: k in old(db.tasks) && Some(k) != req.id ==> k in db.tasks && db.tasks[k] == old(db.tasks)[k]
  {
    var u := Dispatch(req);
    var hit := req.id.Some? && req.id.value in db.tasks;
    if u.None? {
      return Ok(Updated);
    }
    match u.value
    case SetPriority(_) =>
      if hit { db.tasks := db.tasks[req.id.value := Apply(db.tasks[req.id.value], u.value)]; }
      resp := Ok(Updated);
    case SetColor(_) =>
      if !hit {
        return ServerError;
      }
      db.tasks := db.tasks[req.id.value := Apply(db.tasks[req.id.value], u.value)];
      resp := Ok(ReadBack(db.tasks[req.id.value]));
    case SetTitle(_) =>
      if !hit {
        return ServerError;
      }
      db.tasks := db.tasks[req.id.value := Apply(db.tasks[req.id.value], u.value)];
      resp := Ok(ReadBack(db.tasks[req.id.value]));
    case Reposition(c, _) =>
      if hit && c !in db.columns {
        return ServerError;
      }
      if hit { db.tasks := db.tasks[req.id.value := Apply(db.tasks[req.id.value], u.value)]; }
      resp := Ok(Updated);
  }

  /** The delete handler: a request without an id is refused; otherwise the
      row with that id, if any, is removed and nothing else. */
  method Delete(db: Database, req: TaskDelete) returns (resp: Response<Ack>)
    requires db.Valid()
    modifies db`tasks
    ensures db.Valid()
    ensures resp.BadRequest? <==> FalsyInt(req.id)
    ensures resp.BadRequest? ==> db.tasks == old(db.tasks)
    ensures !resp.BadRequest? ==> resp == Ok(Ack) && db.tasks == old(db.tasks) - {req.id.value}
  {
    if FalsyInt(req.id) {
      return BadRequest("Task ID is required");
    }
    db.tasks := db.tasks - {req.id.value};
    resp := Ok(Ack);
  }
}
