/** The board's database: the projects, columns and tasks tables held in
    memory as maps from id to row, with the AUTOINCREMENT counters that hand
    out ids. The route handlers read the tables directly and change them
    through the statements each handler runs. */
module Store {
  import opened Schema

  /** What a handler answers: a body on success, a 400 with its message when
      the request fails validation, a 500 when a statement fails. */
  datatype Response<+T> = Ok(body: T) | BadRequest(message: string) | ServerError

  /** The `{ success: true }` body. */
  datatype Ack = Ack

  /** JavaScript's `!v` for a number field of a request body: absent or 0. */
  predicate FalsyInt(v: Option<int>): (r: bool)
    ensures !r <==> exists n :: v == Some(n) && n != 0
  {
    v.None? || v.value == 0
  }

  /** JavaScript's `!v` for a string field of a request body: absent or empty. */
  predicate FalsyString(v: Option<string>): (r: bool)
    ensures !r <==> exists x :: v == Some(x) && |x| > 0
  {
    v.None? || v.value == ""
  }

  class Database {
    var projects: map<int, Project>
    var columns: map<int, Column>
    var tasks: map<int, Task>

    /** The largest id each table has ever handed out (the `sqlite_sequence` entry). */
    var lastProjectId: nat
    var lastColumnId: nat
    var lastTaskId: nat

    /** Every id each table has ever handed out, including those of rows since deleted. */
    ghost var usedProjectIds: set<int>
    ghost var usedColumnIds: set<int>
    ghost var usedTaskIds: set<int>

    /** Rows are keyed by their ids, every live id was handed out by the
        table's counter, and the foreign keys hold. */
    ghost predicate Valid()
      reads this
    {
      && KeyedById(projects, columns, tasks)
      && Integrity(projects, columns, tasks)
      && projects.Keys <= usedProjectIds && (forall k :: k in usedProjectIds ==> 1 <= k <= lastProjectId)
      && columns.Keys <= usedColumnIds && (forall k :: k in usedColumnIds ==> 1 <= k <= lastColumnId)
      && tasks.Keys <= usedTaskIds && (forall k :: k in usedTaskIds ==> 1 <= k <= lastTaskId)
    }

    /** A fresh database file: three empty tables. */
    constructor ()
      ensures Valid()
      ensures projects == map[] && columns == map[] && tasks == map[]
      ensures usedProjectIds == {} && usedColumnIds == {} && usedTaskIds == {}
    {
      projects, columns, tasks := map[], map[], map[];
      lastProjectId, lastColumnId, lastTaskId := 0, 0, 0;
      usedProjectIds, usedColumnIds, usedTaskIds := {}, {}, {};
    }

    /** `INSERT INTO projects (name, description)`: the row gets an id never
        handed out before and the insertion time as its timestamp. */
    method InsertProject(name: string, description: Option<string>, now: nat) returns (id: int)
      requires Valid()
      modifies this`projects, this`lastProjectId, this`usedProjectIds
      ensures Valid()
      ensures id == old(lastProjectId) + 1 && id !in old(usedProjectIds) && id !in old(projects)
      ensures lastProjectId == id && usedProjectIds == old(usedProjectIds) + {id}
      ensures projects == old(projects)[id := Project(id, name, description, Some(now))]
    {
      id := lastProjectId + 1;
      projects := projects[id := Project(id, name, description, Some(now))];
      lastProjectId := id;
      usedProjectIds := usedProjectIds + {id};
    }

    /** `INSERT INTO columns (project_id, name, position)` for a project that exists. */
    method InsertColumn(projectId: int, name: string, position: int) returns (id: int)
      requires Valid() && projectId in projects
      modifies this`columns, this`lastColumnId, this`usedColumnIds
      ensures Valid()
      ensures id == old(lastColumnId) + 1 && id !in old(usedColumnIds) && id !in old(columns)
      ensures lastColumnId == id && usedColumnIds == old(usedColumnIds) + {id}
      ensures columns == old(columns)[id := Column(id, projectId, name, position)]
    {
      id := lastColumnId + 1;
      columns := columns[id := Column(id, projectId, name, position)];
      lastColumnId := id;
      usedColumnIds := usedColumnIds + {id};
    }

    /** `INSERT INTO tasks (column_id, title, description, position, color)`
        for a column that exists; priority and timestamp take the table's defaults. */
    method InsertTask(columnId: int, title: string, description: Option<string>, position: int,
                      color: Option<string>, now: nat) returns (id: int)
      requires Valid() && columnId in columns
      modifies this`tasks, this`lastTaskId, this`usedTaskIds
      ensures Valid()
      ensures id == old(lastTaskId) + 1 && id !in old(usedTaskIds) && id !in old(tasks)
      ensures lastTaskId == id && usedTaskIds == old(usedTaskIds) + {id}
      ensures tasks == old(tasks)[id := InsertedTask(id, columnId, title, description, position, color, now)]
    {
      id := lastTaskId + 1;
      tasks := tasks[id := InsertedTask(id, columnId, title, description, position, color, now)];
      lastTaskId := id;
      usedTaskIds := usedTaskIds + {id};
    }
  }
}
