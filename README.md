# nextjs-kanban board, modelled in Dafny

A Kanban board: projects hold columns, columns hold tasks, and projects,
columns and tasks each carry a `position` rank. This project models two
parts of it.

- **The server side, as an in-memory relational store.** The store
  (`Store.Database`) is a class. Its fields are the three tables, each a map
  from id to row, plus the three AUTOINCREMENT counters. `Valid()` holds
  four things together:
  - every row is keyed by its own id;
  - every live id was handed out by its table's counter;
  - every column's project exists;
  - every task's column exists.

  The route handlers are methods over the store, one module per route file:
  `TasksRoute`, `ColumnsRoute` and `ProjectsRoute`. Each takes the request
  body's fields as `Option` values, where `None` is a field the JSON body
  lacks. Each states its reply and writes the table change exactly, as a map
  update. The listing queries (`Query`) are SQL `WHERE … ORDER BY` over a
  table. They are proved to return exactly the matching rows, each once, in
  key order. `InitDb` models the maintenance script, which adds to every
  project the default columns it lacks.
- **The client's board state** (`Board`). This is `tasks: map<int,
  seq<Task>>`, the ordered tasks of each column, with the project list and
  the per-column new-task input. It lives as the fields of the class
  `Board.Page`. Its handlers do three things:
  - the drag-end handler splices one column in place, or two columns;
  - the local updaters patch one field of the tasks with an id, or filter
    those tasks out;
  - task creation appends the server's reply.

  Each handler also returns the request it sends. The requests of the
  drag-end, title, priority and colour handlers are tied to the update
  handler's dispatch (`TasksRoute.Dispatch`). The other requests are stated
  as the bodies sent, and are not connected to a server member.

Error outcomes are modelled rather than excluded.
- **Validation failures.** A falsy id, name or title (missing, `0` or `""`,
  JavaScript's `!v`) gives `BadRequest`, which is a 400.
- **Constraint failures.** A missing value for a NOT NULL column, or a
  parent that does not exist, makes the SQL statement fail. That gives
  `ServerError`, which is a 500, with nothing written. The columns route and
  the project create handler have no `try`; the uncaught exception still
  ends as a 500.
- **Updates that match no row.** A project rename, a column move, or a task
  priority or position update changes nothing and still succeeds, as the
  SQL does. A task colour or title update also changes nothing. It then
  reads back no row, and serialising that missing row throws. The handler's
  `catch` turns this into `ServerError`.

In these places the model follows what the code does:
- The `!v` checks treat `0` and `""` like a missing field. These are the
  checks of the task create and delete handlers and of the project rename
  and delete handlers. The task update handler tests `!== undefined`
  instead, so `priority: 0`, `color: ""` and `title: ""` are written. The
  column and project create handlers check nothing and store an empty name.
- The schema's colour default for tasks is `#FFFFFF`. The create handler
  stores `#3B82F6` when no colour is sent, so the schema default is never
  used by that path. Both are modelled (`Schema.InsertedTask`,
  `TasksRoute.ColorOrDefault`).
- Sibling positions are never renumbered. The model states exactly which row
  changes and does not assume positions are contiguous.
  `Board.DropAgreesWithServerButPosition` shows that after any drop, within
  a column or across columns, the client's copy of the moved task keeps its
  old `position`. The server
  row's `position` is the drop index.
- Under `ON DELETE CASCADE` the project delete's three explicit statements
  are redundant. `Schema.DeleteOrderMatchesCascade` shows they leave the
  cascades nothing to do and end in the same tables.

Timestamps are abstract naturals (`now` is a parameter). A handler that
waits for the server takes the server's outcome as a parameter: `ok` for the
response status, or the parsed reply.

## Model

| member | source | states |
|---|---|---|
| `Schema.InsertedTask` | src/models/database.ts:32-42 | a row inserted without a colour or priority gets `#FFFFFF` and `0`; the id, column, title, description and position are stored as given; the timestamp is the insertion time |
| `Schema.TasksOutsideProject` | src/app/api/projects/route.ts:82-85 | the task delete by subquery keeps exactly the tasks whose column is not one of the project's; the kept rows are unchanged |
| `Schema.ColumnsOutsideProject` | src/app/api/projects/route.ts:87 | the column delete keeps exactly the columns of other projects; the kept rows are unchanged |
| `Schema.ProjectCascade` | src/app/api/projects/route.ts:81-89 | deleting tasks, then columns, then the project keeps both foreign keys; exactly the project's columns and their tasks go; every other row is unchanged |
| `Schema.TasksCascade` | src/models/database.ts:41 | deleting a set of columns removes exactly the tasks whose column is in the set, and leaves the other tasks unchanged |
| `Schema.ColumnDeleteCascades` | src/models/database.ts:29-41 | deleting columns together with their cascaded tasks keeps the foreign keys |
| `Schema.DeleteOrderMatchesCascade` | src/models/database.ts:29-41 | the handler's explicit task deletion equals the cascade from the project's columns; the later statements cascade nothing further |
| `Query.Scan` | src/app/api/tasks/route.ts:9-12 | the scan over a rowid range yields exactly the matching rows of that range, one per matching rowid |
| `Query.InsertByKey` | src/app/api/tasks/route.ts:10 | inserting into a sorted sequence keeps it sorted and adds exactly one element (multiset) |
| `Query.SortByKey` | src/app/api/tasks/route.ts:10 | `ORDER BY`: the result is sorted by the key and is a permutation of the input |
| `Query.Select` | src/app/api/tasks/route.ts:9-12 | `WHERE … ORDER BY`: the result is sorted; it holds a row iff the table has it and it matches; its length is the number of matching rowids |
| `Store.FalsyInt` | src/app/api/tasks/route.ts:104 | `!id`: a numeric field passes iff it is present and not 0 |
| `Store.FalsyString` | src/app/api/tasks/route.ts:22 | `!title`: a string field passes iff it is present and not empty |
| `Store.Database.constructor` | src/models/database.ts:16-43 | a new database has three empty tables and no ids handed out |
| `Store.Database.InsertProject` | src/models/database.ts:17-22 | AUTOINCREMENT: the new id was never handed out before; the row is stored with the insertion time |
| `Store.Database.InsertColumn` | src/models/database.ts:24-30 | AUTOINCREMENT id never handed out before; the row is stored as given; the foreign key to an existing project is kept |
| `Store.Database.InsertTask` | src/models/database.ts:32-42 | AUTOINCREMENT id never handed out before; the row is stored with the schema defaults; the foreign key to an existing column is kept |
| `TasksRoute.Get` | src/app/api/tasks/route.ts:4-15 | the reply is ordered by non-decreasing position; it holds a task iff the task is in the table with that column id; it has one entry per such row; a missing parameter matches nothing |
| `TasksRoute.SelectedTasks` | src/app/api/tasks/route.ts:9-12 | restates the generic query result in terms of task ids and the column filter |
| `TasksRoute.ColorOrDefault` | src/app/api/tasks/route.ts:28 | a falsy colour becomes `#3B82F6`, which differs from the schema default; any other colour is kept |
| `TasksRoute.Post` | src/app/api/tasks/route.ts:17-50 | 400 iff the column id or title is falsy; 500 iff the position is missing or the column does not exist; neither writes anything; otherwise a fresh id, the stored row, and a reply echoing the sent fields with the defaulted colour |
| `TasksRoute.Dispatch` | src/app/api/tasks/route.ts:57-89 | precedence: priority, then colour, then title, then column id and position together; no update when no group is complete |
| `TasksRoute.Apply` | src/app/api/tasks/route.ts:57-88 | the four UPDATE statements: priority, colour or title is set to the sent value and the rest of the row is kept; a reposition sets the column id and position and keeps every other field |
| `TasksRoute.ApplyWritesOneGroup` | src/app/api/tasks/route.ts:57-89 | each update changes only its own field group of the row |
| `TasksRoute.Put` | src/app/api/tasks/route.ts:52-99 | only the row with that id changes, by the dispatched update; no other task's position changes; no field group, or a priority or position update for an unknown id, is a no-op with success; a colour or title update for an unknown id is a 500 with nothing written, because the missing row cannot be serialised; moving to a missing column fails with nothing written; colour and title replies carry the row read back |
| `TasksRoute.Delete` | src/app/api/tasks/route.ts:101-125 | 400 iff the id is falsy; otherwise exactly that row is removed |
| `ColumnsRoute.Get` | src/app/api/columns/route.ts:4-15 | the reply is ordered by non-decreasing position; it holds a column iff the column belongs to that project; it has one entry per such row |
| `ColumnsRoute.SelectedColumns` | src/app/api/columns/route.ts:9-12 | restates the generic query result in terms of column ids and the project filter |
| `ColumnsRoute.Post` | src/app/api/columns/route.ts:17-27 | 500 iff a field is missing or the project does not exist, with nothing written; otherwise a fresh id, and the caller's position stored unvalidated and echoed |
| `ColumnsRoute.Put` | src/app/api/columns/route.ts:29-39 | only that column's position changes; an unknown id is a no-op with success; a missing position on an existing row fails |
| `ProjectsRoute.DefaultColumnsRanked` | src/app/api/projects/route.ts:22-28 | the default list is Backlog, To Do, In Progress, Review, Done, each ranked by its place in the list (0 to 4) |
| `ProjectsRoute.CreatedKey` | src/app/api/projects/route.ts:6-8 | the sort key is the creation time; a project without one (NULL) gets a key below every time |
| `ProjectsRoute.Get` | src/app/api/projects/route.ts:4-10 | every project once, ordered by `created_at` descending (NULL last) |
| `ProjectsRoute.SelectedProjects` | src/app/api/projects/route.ts:6-8 | restates the generic query result as every project, newest first |
| `ProjectsRoute.DefaultColumnsFor` | src/app/api/projects/route.ts:22-35 | the five default columns, Backlog 0 to Done 4, under ids `base+1` to `base+5`, in list order |
| `ProjectsRoute.Post` | src/app/api/projects/route.ts:12-38 | no validation; a missing name fails with nothing written; otherwise one fresh project and exactly its five default columns; the reply is `{id, name, description}` |
| `ProjectsRoute.InsertDefaultColumns` | src/app/api/projects/route.ts:30-35 | the loop adds exactly the default columns, with consecutive ids |
| `ProjectsRoute.DefaultColumnsStep` | src/app/api/projects/route.ts:30-35 | one loop turn extends the inserted columns by the next default column |
| `ProjectsRoute.DefaultColumnsOwned` | src/app/api/projects/route.ts:30-35 | afterwards the new project owns exactly the five inserted columns |
| `ProjectsRoute.Put` | src/app/api/projects/route.ts:40-67 | 400 iff the id or name is falsy, with nothing changed; otherwise only that project's name changes |
| `ProjectsRoute.Delete` | src/app/api/projects/route.ts:69-102 | 400 iff the id is falsy; otherwise the tasks, columns and row of that project go; no task refers to a removed column; every other project's rows are unchanged |
| `InitDb.NamesBeforeStep` | src/scripts/init-db.ts:29 | the names seen after one more turn are the previous ones plus the current default name |
| `InitDb.DefaultNamesDistinct` | src/scripts/init-db.ts:7-13 | the five default names are pairwise different |
| `InitDb.Backfill` | src/scripts/init-db.ts:15-38 | afterwards every project has every default name; existing columns are kept unchanged; each added column is a default column (name and position) that its project lacked, with a fresh id; a database where every project has every default name is left unchanged |
| `InitDb.ColumnNames` | src/scripts/init-db.ts:21-26 | the name set holds exactly the names of that project's columns |
| `InitDb.BackfillProject` | src/scripts/init-db.ts:20-37 | one project's turn gives it every default name; it adds only columns of that project and changes no existing one |
| `InitDb.InsertStep` | src/scripts/init-db.ts:30-36 | inserting a missing default name keeps the loop's progress invariant |
| `InitDb.AddOne` | src/scripts/init-db.ts:31-34 | the inserted column is a missing default, so it is added only once |
| `InitDb.SkipStep` | src/scripts/init-db.ts:30 | a name already present is skipped and the invariant holds |
| `InitDb.NotYetNamed` | src/scripts/init-db.ts:26-30 | a name absent from the set is missing from the project, and differs from the names this turn added |
| `InitDb.NamedStaysNamed` | src/scripts/init-db.ts:29-36 | inserting never removes a name a project has |
| `InitDb.BackfillIdempotent` | src/scripts/init-db.ts:26-30 | idempotence: when every project already has every name, the backfill adds nothing |
| `Board.RemoveAt` | src/app/page.tsx:316 | `splice(i, 1)`: one shorter, the elements after `i` shift down, and the multiset loses `s[i]` |
| `Board.InsertAt` | src/app/page.tsx:317 | `splice(i, 0, x)`: one longer, `x` at `i`, the later elements shift up, and the multiset gains `x` |
| `Board.Moved` | src/app/page.tsx:316-317 | a same-column move keeps the length and the multiset, and puts the moved element at the destination |
| `Board.MovedAt` | src/app/page.tsx:316-317 | where each element goes after a move |
| `Board.MovedBack` | src/app/page.tsx:313-322 | moving back from the destination to the source restores the column |
| `Board.CopyOf` | src/app/page.tsx:315 | `[...column]` is a fresh array with the column's contents |
| `Board.MoveWithin` | src/app/page.tsx:315-317 | the in-place splices of the copied array leave it equal to `Moved` of its old contents |
| `Board.ShiftDown` | src/app/page.tsx:316 | the elements after the removed one move down one place |
| `Board.ShiftUp` | src/app/page.tsx:317 | the elements from the insertion point move up one place |
| `Board.Dropped` | src/app/page.tsx:307-352 | no destination leaves the board unchanged; otherwise the board gains the destination column if new; the destination keeps its length in a same-column drop and grows by one across columns |
| `Board.MoveRequest` | src/app/page.tsx:324-333 | a request is sent iff there is a destination; it names the task, the destination column and the destination index, and dispatches as a reposition |
| `Board.SameColumnDrop` | src/app/page.tsx:313-322 | a same-column drop keeps that column's length and multiset, puts the task at the drop index, and leaves the other columns unchanged |
| `Board.CrossColumnDrop` | src/app/page.tsx:336-352 | the source loses exactly the moved task, and the destination gains it at the drop index with its column id rewritten; lengths change by one; other columns are unchanged |
| `Board.FetchedBoardConsistent` | src/app/page.tsx:102-110 | a board filled from the listing endpoint has every task in the column its column id names |
| `Board.DropKeepsConsistent` | src/app/page.tsx:307-365 | every drop keeps the board consistent |
| `Board.DropWithinConsistent` | src/app/page.tsx:313-322 | a same-column drop keeps the board consistent |
| `Board.DropAcrossConsistent` | src/app/page.tsx:336-352 | rewriting the column id keeps the board consistent across columns |
| `Board.DropBack` | src/app/page.tsx:307-365 | dropping back from where a drop ended to where it began restores the board |
| `Board.DroppedWithin` | src/app/page.tsx:313-322 | proof helper: unfolds the same-column branch of `Dropped` into one column update |
| `Board.DropBackWithin` | src/app/page.tsx:313-322 | a same-column drop undone restores the board |
| `Board.DroppedAcross` | src/app/page.tsx:336-352 | proof helper: unfolds the cross-column branch of `Dropped` into two column updates |
| `Board.DropBackAcross` | src/app/page.tsx:336-352 | a cross-column drop undone restores the board, plus one empty column if the destination was new |
| `Board.DropAgreesWithServerButPosition` | src/app/page.tsx:313-362 | for a drop within a column or across columns, the client's moved task equals the server's updated row except in `position` |
| `Board.DropRequestNamesMovedTask` | src/app/page.tsx:324-362 | the request's id is the id of the task now at the drop index of the destination column |
| `Board.Patched` | src/app/page.tsx:145 | a patch changes only its one field and keeps the id, column, position, description and timestamp |
| `Board.PatchedAsServer` | src/app/page.tsx:141-149 | the client's patch of a task is the server's update of its row |
| `Board.PatchColumn` | src/app/page.tsx:144-146 | the length is kept; each task with that id is patched, and every other task is kept |
| `Board.WithoutTask` | src/app/page.tsx:298 | `filter`: every task with that id is removed, and every other task stays as often as it was |
| `Board.WithoutTaskConcat` | src/app/page.tsx:298 | filtering a concatenation filters each part; with the counts of `WithoutTask` this fixes the result of every sequence, so the survivors keep their relative order |
| `Board.WithoutTaskAbsent` | src/app/page.tsx:298 | a column without a task of that id is left exactly as it was |
| `Board.EditColumns` | src/app/page.tsx:141-149 | the updater loop edits every column and keeps the set of columns |
| `Board.PatchOnlyThatTask` | src/app/page.tsx:232-240 | proof helper: `PatchColumn`'s contract read at one index of one column of the board |
| `Board.EditKeepsConsistent` | src/app/page.tsx:295-301 | local patches and removals keep the board consistent |
| `Board.EditColumnAllIn` | src/app/page.tsx:295-301 | one column's patch or removal keeps its tasks in that column |
| `Board.TogglePriority` | src/app/page.tsx:215 | 1 becomes 0; anything else, a missing priority included, becomes 1 |
| `Board.ToggleTwice` | src/app/page.tsx:215 | toggling twice gives back 0 or 1, and normalises anything else to 0 |
| `Board.IndexOfId` | src/app/page.tsx:210-212 | the first index with that id, or none if no task has it |
| `Board.FindTask` | src/app/page.tsx:210-212 | `Object.values(tasks).flat().find`: the first task with that id, in the lowest-keyed column that has one; none iff no column has it |
| `Board.FirstWithIdUnique` | src/app/page.tsx:210-212 | there is only one first task with a given id, so the lookup's answer is determined |
| `Board.Renamed` | src/app/page.tsx:382-384 | the length is kept; each project with that id gets the new name, and every other project is kept |
| `Board.Page.constructor` | src/app/page.tsx:45-60 | a new page starts with no projects, an empty board, no typed titles, and not editing |
| `Board.Page.OnDragEnd` | src/app/page.tsx:307-365 | the board becomes `Dropped` of the old board and the request is `MoveRequest`; no destination means no change and no request |
| `Board.Page.MoveInColumn` | src/app/page.tsx:313-322 | the column is replaced by its moved copy |
| `Board.Page.MoveAcross` | src/app/page.tsx:336-352 | source and destination are replaced by their spliced copies |
| `Board.Page.CreateTask` | src/app/page.tsx:155-207 | no request iff no title is typed; the request's position is the column length (0 if absent); a reply is appended and the input cleared; otherwise nothing changes |
| `Board.Page.TitleChanged` | src/app/page.tsx:123-153 | the request dispatches as a title update; on success every column is patched; on failure nothing changes |
| `Board.Page.PriorityToggled` | src/app/page.tsx:209-245 | no request iff no task has the id; otherwise it finds the first task with the id and sends `TogglePriority` of that task's priority as a priority update; on success that priority is written into every task with the id |
| `Board.Page.ColorChanged` | src/app/page.tsx:247-280 | the request dispatches as a colour update; on success every column is patched |
| `Board.Page.TaskDeleted` | src/app/page.tsx:282-305 | the request is the delete body `{id}`; the server refuses it iff the id is 0; on success the tasks with that id are filtered out of every column |
| `Board.Page.ProjectCreated` | src/app/page.tsx:112-121 | the request body carries only the name; the reply is appended to the project list |
| `Board.Page.ProjectNameChanged` | src/app/page.tsx:367-389 | the request is the rename body `{id, name}`; the server refuses it iff the id is 0 or the name is empty; on success the listed projects with that id are renamed and editing ends; on failure nothing changes |

## Left out

- React rendering, hooks, the `useEffect` re-fetch chains and the
  `localStorage` copy of the selected project (src/app/page.tsx:46-110) are
  UI and browser state. The board a fetch builds is covered only by
  `Board.FetchedBoardConsistent`.
- HTTP, `fetch`, JSON parsing and logging are I/O. Handlers take the server's
  outcome as a parameter and return the request body they send. They do not
  call the routes.
- JSON `null` and wrongly typed fields are not modelled. A request field is
  either present with its type or absent. The identifiers that reach the
  server as strings are modelled as the integers they parse to:
  - the drag library's string `draggableId` and `droppableId`;
  - the query-string parameters.

  Rows whose key is text are not modelled.
- The SQLite connection, `PRAGMA foreign_keys` and `CREATE TABLE IF NOT
  EXISTS` (src/models/database.ts:5-15) belong to a foreign library. The
  store is in memory and obeys the schema rules.
- `Query.SortByKey`: SQLite leaves the order of rows with equal keys
  unspecified. The model fixes one order: the lower rowid first.
- `created_at` values are abstract naturals. They are not `CURRENT_TIMESTAMP`
  text, and two rows created within the same second are not modelled as
  equal.
- The `result.lastID` check (src/app/api/tasks/route.ts:31-33) never fails
  after a successful insert, so it is not modelled.
- `process.exit`, the console output and the top-level promise handling of
  the backfill script (src/scripts/init-db.ts:35, 40-44) are left out.
- Concurrency and the interleaving of `await`s are left out. Each handler
  applies its local update in one step after the server's outcome.
- `Board.Page.MoveAcross` works on sequences, not in place on arrays. Its
  two splices change the lengths of its copies.
- `Board.DropFits`: a drop the library reports is assumed to lie inside the
  columns, with the dragged id equal to the id of the task at the source
  index. JavaScript's clamping of out-of-range splice indices is not
  modelled.
- `Board.FindTask` visits columns in ascending key order. That is the order
  `Object.values` gives integer keys; other key kinds do not occur.
- `Board.Page.ProjectCreated` appends the reply whatever the response status.
  The model types that reply as a project, so an error body appended as a
  project is not modelled.
- The sidebar and task-card components are presentational, with their input
  checks (src/components/sidebar.tsx:44, 51; src/components/ui/task.tsx:62,
  71). They are left out, as are the mock users and the colour palette.
