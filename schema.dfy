/** The three tables of the board (projects, columns, tasks), the row types
    the rest of the program passes around, the column defaults the schema
    declares, and the foreign-key rules that tie the tables together. */
module Schema {

  datatype Option<+T> = None | Some(value: T) {
    function GetOr(default: T): T {
      match this
      case Some(v) => v
      case None => default
    }
  }

  /** A project row. `createdAt` is an abstract timestamp, with a larger value
      for a later moment; it is absent from the object the create handler
      sends back. */
  datatype Project = Project(id: int, name: string, description: Option<string>, createdAt: Option<nat>)

  /** A column row: belongs to one project and has a rank among its siblings. */
  datatype Column = Column(id: int, projectId: int, name: string, position: int)

  /** A task row. The optional fields are those the program treats as
      possibly absent: a task built from the create handler's reply carries no
      priority and no timestamp. */
  datatype Task = Task(
    id: int,
    columnId: int,
    title: string,
    description: Option<string>,
    position: int,
    color: Option<string>,
    priority: Option<int>,
    createdAt: Option<nat>)

  /** The colour the tasks table gives a row inserted without one. */
  const SchemaDefaultColor: string := "#FFFFFF"

  /** The priority the tasks table gives a row inserted without one. */
  const SchemaDefaultPriority: int := 0

  /** A tasks row as the table stores it after an INSERT that names the
      given fields: the unnamed colour and priority take the column defaults,
      and the timestamp is the insertion time. */
  function InsertedTask(id: int, columnId: int, title: string, description: Option<string>,
                        position: int, color: Option<string>, now: nat): (t: Task)
    ensures t.id == id && t.columnId == columnId && t.title == title && t.position == position
    ensures t.description == description
    ensures t.color == Some(if color.None? then SchemaDefaultColor else color.value)
    ensures t.priority == Some(SchemaDefaultPriority)
    ensures t.createdAt == Some(now)
  {
    Task(id, columnId, title, description, position, Some(color.GetOr(SchemaDefaultColor)),
         Some(SchemaDefaultPriority), Some(now))
  }

  /** Every table is keyed by the row's own id. */
  ghost predicate KeyedById(projects: map<int, Project>, columns: map<int, Column>, tasks: map<int, Task>) {
    && (forall k :: k in projects ==> projects[k].id == k)
    && (forall k :: k in columns ==> columns[k].id == k)
    && (forall k :: k in tasks ==> tasks[k].id == k)
  }

  /** The foreign keys hold: every column's project and every task's column exist. */
  ghost predicate Integrity(projects: map<int, Project>, columns: map<int, Column>, tasks: map<int, Task>) {
    && (forall k :: k in columns ==> columns[k].projectId in projects)
    && (forall k :: k in tasks ==> tasks[k].columnId in columns)
  }

  /** The tasks that survive `DELETE FROM tasks WHERE column_id IN (SELECT id
      FROM columns WHERE project_id = pid)`. */
  function TasksOutsideProject(tasks: map<int, Task>, columns: map<int, Column>, pid: int): (r: map<int, Task>)
    ensures forall k :: k in r <==>
      k in tasks && !(tasks[k].columnId in columns && columns[tasks[k].columnId].projectId == pid)
    ensures forall k :: k in r ==> r[k] == tasks[k]
  {
    map k | k in tasks && !(tasks[k].columnId in columns && columns[tasks[k].columnId].projectId == pid) :: tasks[k]
  }

  /** The columns that survive `DELETE FROM columns WHERE project_id = pid`. */
  function ColumnsOutsideProject(columns: map<int, Column>, pid: int): (r: map<int, Column>)
    ensures forall k :: k in r <==> k in columns && columns[k].projectId != pid
    ensures forall k :: k in r ==> r[k] == columns[k]
  {
    map k | k in columns && columns[k].projectId != pid :: columns[k]
  }

  /** The three deletions of a project, in the order tasks, columns, project,
      keep the foreign keys intact, remove every column and task of the
      project, and keep every row of every other project as it was. */
  lemma ProjectCascade(projects: map<int, Project>, columns: map<int, Column>, tasks: map<int, Task>, pid: int)
    requires Integrity(projects, columns, tasks)
    ensures var t', c', p' := TasksOutsideProject(tasks, columns, pid), ColumnsOutsideProject(columns, pid), projects - {pid};
      && Integrity(p', c', t')
      && (forall k :: k in c' <==> k in columns && columns[k].projectId != pid)
      && (forall k :: k in t' <==> k in tasks && columns[tasks[k].columnId].projectId != pid)
      && (forall k :: k in c' ==> c'[k] == columns[k])
      && (forall k :: k in t' ==> t'[k] == tasks[k])
  {
  }

  /** The ids of the columns of project `pid`. */
  function ProjectColumnIds(columns: map<int, Column>, pid: int): set<int> {
    set k | k in columns && columns[k].projectId == pid
  }

  /** The tasks left once the columns in `gone` are deleted, under
      `ON DELETE CASCADE` on a task's column: every task of those columns goes. */
  function TasksCascade(tasks: map<int, Task>, gone: set<int>): (r: map<int, Task>)
    ensures forall k :: k in r <==> k in tasks && tasks[k].columnId !in gone
    ensures forall k :: k in r ==> r[k] == tasks[k]
  {
    map k | k in tasks && tasks[k].columnId !in gone :: tasks[k]
  }

  /** Deleting columns, with the cascade to their tasks, keeps the foreign keys. */
  lemma ColumnDeleteCascades(projects: map<int, Project>, columns: map<int, Column>, tasks: map<int, Task>, gone: set<int>)
    requires Integrity(projects, columns, tasks)
    ensures Integrity(projects, columns - gone, TasksCascade(tasks, gone))
  {
  }

  /** The three statements of the project delete leave the schema's cascades
      nothing to do: once the tasks are gone, deleting the columns removes no
      further task, and once the columns are gone, deleting the project
      removes no further column. The tables end as if only the project row
      had been deleted and the cascades had done the rest. */
  lemma DeleteOrderMatchesCascade(projects: map<int, Project>, columns: map<int, Column>, tasks: map<int, Task>, pid: int)
    requires Integrity(projects, columns, tasks)
    ensures var gone := ProjectColumnIds(columns, pid);
      var t1 := TasksOutsideProject(tasks, columns, pid);
      var c2 := ColumnsOutsideProject(columns, pid);
      && t1 == TasksCascade(tasks, gone)
      && TasksCascade(t1, gone) == t1
      && c2 == columns - gone
      && ProjectColumnIds(c2, pid) == {}
  {
    var gone := ProjectColumnIds(columns, pid);
    var t1 := TasksOutsideProject(tasks, columns, pid);
    assert t1 == TasksCascade(tasks, gone) by {
      forall k | k in tasks ensures (k in t1) == (tasks[k].columnId !in gone) {
        assert tasks[k].columnId in columns;
      }
    }
  }
}
