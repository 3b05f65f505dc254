/** The client's copy of the board: the tasks of each column of the selected
    project, in display order, with the project list and the text typed into
    each column's new-task input. The handlers rearrange this state after a
    drag, patch or drop single tasks after an update, and append what the
    server returns after a create; each also says which request it sends. */
module Board {
  import opened Schema
  import opened Store
  import TasksRoute
  import ProjectsRoute

  /** The tasks of each column, keyed by column id, in display order. */
  type TasksByColumn = map<int, seq<Task>>

  // ---------------------------------------------------------------------
  // The two splices.

  /** `s.splice(i, 1)`: the sequence without its element at `i`. */
  function RemoveAt<T>(s: seq<T>, i: nat): (r: seq<T>)
    requires i < |s|
    ensures |r| == |s| - 1
    ensures forall k :: 0 <= k < i ==> r[k] == s[k]
    ensures forall k :: i <= k < |r| ==> r[k] == s[k + 1]
    ensures multiset(r) == multiset(s) - multiset{s[i]}
  {
    assert s == s[..i] + [s[i]] + s[i + 1..];
    s[..i] + s[i + 1..]
  }

  /** `s.splice(i, 0, x)`: the sequence with `x` placed at `i`. */
  function InsertAt<T>(s: seq<T>, i: nat, x: T): (r: seq<T>)
    requires i <= |s|
    ensures |r| == |s| + 1
    ensures r[i] == x
    ensures forall k :: 0 <= k < i ==> r[k] == s[k]
    ensures forall k :: i < k < |r| ==> r[k] == s[k - 1]
    ensures multiset(r) == multiset(s) + multiset{x}
  {
    assert s == s[..i] + s[i..];
    s[..i] + [x] + s[i..]
  }

  /** The element at `from` taken out and put back at `to`. */
  function Moved<T>(s: seq<T>, from: nat, to: nat): (r: seq<T>)
    requires from < |s| && to < |s|
    ensures |r| == |s| && r[to] == s[from]
    ensures multiset(r) == multiset(s)
  {
    var t := RemoveAt(s, from);
    assert multiset(t) + multiset{s[from]} == multiset(s);
    InsertAt(t, to, s[from])
  }

  /** Where each element of `s` ends up after a move: the moved one at `to`,
      the ones between the two indices shifted by one towards `from`, the
      rest in place. Nothing is lost or duplicated. */
  lemma MovedAt<T>(s: seq<T>, from: nat, to: nat)
    requires from < |s| && to < |s|
    ensures var r := Moved(s, from, to);
      && |r| == |s| && r[to] == s[from]
      && (forall k :: 0 <= k < |s| && k < from && k < to ==> r[k] == s[k])
      && (forall k :: from <= k < to ==> r[k] == s[k + 1])
      && (forall k :: to < k <= from ==> r[k] == s[k - 1])
      && (forall k :: from < k < |s| && to < k ==> r[k] == s[k])
  {
  }

  /** Dragging an element back to where it came from restores the column. */
  lemma MovedBack<T>(s: seq<T>, from: nat, to: nat)
    requires from < |s| && to < |s|
    ensures Moved(Moved(s, from, to), to, from) == s
  {
    var r := Moved(s, from, to);
    MovedAt(s, from, to);
    MovedAt(r, to, from);
    var b := Moved(r, to, from);
    forall k | 0 <= k < |s| ensures b[k] == s[k] {
      if k == from {
      } else if from < to && from < k <= to {
        assert b[k] == r[k - 1];
      } else if to < from && to <= k < from {
        assert b[k] == r[k + 1];
      } else {
        assert b[k] == r[k];
      }
    }
  }

  /** A fresh array holding `s`: the `[...column]` copy. */
  method CopyOf(s: seq<Task>) returns (a: array<Task>)
    ensures fresh(a) && a[..] == s
  {
    a := new Task[|s|](i requires 0 <= i < |s| => s[i]);
  }

  /** The two splices of a same-column drop, done in place on the copied
      array: the element at `from` is lifted out, the ones between the two
      indices shift by one, and it is put down at `to`. */
  method MoveWithin(a: array<Task>, from: nat, to: nat)
    requires from < a.Length && to < a.Length
    modifies a
    ensures a[..] == Moved(old(a[..]), from, to)
  {
    ghost var s := a[..];
    var moved := a[from];
    if from <= to {
      ShiftDown(a, from, to);
    } else {
      ShiftUp(a, to, from);
    }
    a[to] := moved;
    MovedAt(s, from, to);
    forall k | 0 <= k < a.Length ensures a[k] == Moved(s, from, to)[k] {
    }
    assert a[..] == Moved(s, from, to);
  }

  /** Each element of `a[lo + 1..hi + 1]` moves one place down. */
  method ShiftDown(a: array<Task>, lo: nat, hi: nat)
    requires lo <= hi < a.Length
    modifies a
    ensures forall k :: 0 <= k < a.Length && (k < lo || hi <= k) ==> a[k] == old(a[k])
    ensures forall k :: lo <= k < hi ==> a[k] == old(a[k + 1])
  {
    var i := lo;
    while i < hi
      invariant lo <= i <= hi
      invariant forall k :: 0 <= k < a.Length && (k < lo || i <= k) ==> a[k] == old(a[k])
      invariant forall k :: lo <= k < i ==> a[k] == old(a[k + 1])
    {
      a[i] := a[i + 1];
      i := i + 1;
    }
  }

  /** Each element of `a[lo..hi]` moves one place up. */
  method ShiftUp(a: array<Task>, lo: nat, hi: nat)
    requires lo <= hi < a.Length
    modifies a
    ensures forall k :: 0 <= k < a.Length && (k <= lo || hi < k) ==> a[k] == old(a[k])
    ensures forall k :: lo < k <= hi ==> a[k] == old(a[k - 1])
  {
    var i := hi;
    while i > lo
      invariant lo <= i <= hi
      invariant forall k :: 0 <= k < a.Length && (k <= i || hi < k) ==> a[k] == old(a[k])
      invariant forall k :: i < k <= hi ==> a[k] == old(a[k - 1])
    {
      a[i] := a[i - 1];
      i := i - 1;
    }
  }

  // ---------------------------------------------------------------------
  // Dragging a task.

  /** Where a drag started or ended: a column and an index in it. */
  datatype Location = Location(droppableId: int, index: nat)

  /** What the drag-and-drop library reports when a drag ends. */
  datatype DropResult = DropResult(draggableId: int, source: Location, destination: Option<Location>)

  /** `tasks[c] || []`. */
  function ColumnOrEmpty(board: TasksByColumn, c: int): seq<Task> {
    if c in board then board[c] else []
  }

  /** What the library guarantees of a drop: it starts at a task of a
      column on the board, the dragged id is that task's id (each card is
      rendered with its task's id and its index in the column), and it ends
      at an index the destination can take. */
  predicate DropFits(board: TasksByColumn, r: DropResult) {
    r.destination.Some? ==>
      var src, dst := r.source, r.destination.value;
      && src.droppableId in board && src.index < |board[src.droppableId]|
      && board[src.droppableId][src.index].id == r.draggableId
      && if src.droppableId == dst.droppableId then dst.index < |board[src.droppableId]|
         else dst.index <= |ColumnOrEmpty(board, dst.droppableId)|
  }

  /** The board after a drop: a move inside one column, or a task taken
      out of one column and put into another with its column id rewritten. */
  function Dropped(board: TasksByColumn, r: DropResult): (d: TasksByColumn)
    requires DropFits(board, r)
    ensures r.destination.None? ==> d == board
    ensures r.destination.Some? ==> d.Keys == board.Keys + {r.destination.value.droppableId}
    ensures r.destination.Some? ==>
      var dst := r.destination.value.droppableId;
      |d[dst]| == |ColumnOrEmpty(board, dst)| + (if r.source.droppableId == dst then 0 else 1)
  {
    if r.destination.None? then board
    else
      var src, dst := r.source, r.destination.value;
      if src.droppableId == dst.droppableId then
        board[src.droppableId := Moved(board[src.droppableId], src.index, dst.index)]
      else
        var moved := board[src.droppableId][src.index];
        board[src.droppableId := RemoveAt(board[src.droppableId], src.index)]
             [dst.droppableId := InsertAt(ColumnOrEmpty(board, dst.droppableId), dst.index,
                                          moved.(columnId := dst.droppableId))]
  }

  /** The update request a drop sends: the task id, the destination column and
      the destination index as the new position. */
  function MoveRequest(r: DropResult): (req: Option<TasksRoute.TaskPut>)
    ensures req.Some? <==> r.destination.Some?
    ensures req.Some? ==>
      TasksRoute.Dispatch(req.value) ==
        Some(TasksRoute.Reposition(r.destination.value.droppableId, r.destination.value.index))
      && req.value.id == Some(r.draggableId)
  {
    if r.destination.None? then None
    else Some(TasksRoute.TaskPut(Some(r.draggableId), Some(r.destination.value.droppableId),
                                 Some(r.destination.value.index), None, None, None))
  }

  /** A drop inside one column: that column is rearranged with the same
      tasks and length, and every other column is as it was. */
  lemma SameColumnDrop(board: TasksByColumn, r: DropResult)
    requires DropFits(board, r)
    requires r.destination.Some? && r.source.droppableId == r.destination.value.droppableId
    ensures var d, c := Dropped(board, r), r.source.droppableId;
      && d.Keys == board.Keys
      && |d[c]| == |board[c]| && multiset(d[c]) == multiset(board[c])
      && d[c][r.destination.value.index] == board[c][r.source.index]
      && (forall c' :: c' in board && c' != c ==> d[c'] == board[c'])
  {
    DroppedWithin(board, r);
  }

  /** A drop across columns: the source loses exactly the moved task, the
      destination gains it at the drop index with its column id set to the
      destination, and every other column is as it was. */
  lemma CrossColumnDrop(board: TasksByColumn, r: DropResult)
    requires DropFits(board, r)
    requires r.destination.Some? && r.source.droppableId != r.destination.value.droppableId
    ensures var d, src, dst := Dropped(board, r), r.source.droppableId, r.destination.value.droppableId;
      var moved := board[src][r.source.index];
      && d.Keys == board.Keys + {dst}
      && |d[src]| == |board[src]| - 1
      && multiset(d[src]) == multiset(board[src]) - multiset{moved}
      && |d[dst]| == |ColumnOrEmpty(board, dst)| + 1
      && multiset(d[dst]) == multiset(ColumnOrEmpty(board, dst)) + multiset{moved.(columnId := dst)}
      && d[dst][r.destination.value.index] == moved.(columnId := dst)
      && (forall c :: c in board && c != src && c != dst ==> d[c] == board[c])
  {
    DroppedAcross(board, r);
  }

  /** Every task of `s` names column `c`. */
  ghost predicate AllIn(s: seq<Task>, c: int) {
    forall k :: 0 <= k < |s| ==> s[k].columnId == c
  }

  /** Every task sits in the column its column id names, as the listing
      endpoint returns them. */
  ghost predicate Consistent(board: TasksByColumn) {
    forall c :: c in board ==> AllIn(board[c], c)
  }

  /** A board filled column by column from the listing endpoint is consistent. */
  lemma FetchedBoardConsistent(db: Database, board: TasksByColumn)
    requires db.Valid()
    requires forall c :: c in board ==> board[c] == TasksRoute.Get(db, Some(c))
    ensures Consistent(board)
  {
    forall c | c in board ensures AllIn(board[c], c) {
      forall k | 0 <= k < |board[c]| ensures board[c][k].columnId == c {
        assert board[c][k] in TasksRoute.Get(db, Some(c));
      }
    }
  }

  /** A rearrangement of a column's tasks keeps them all in that column. */
  lemma PermutedAllIn(s: seq<Task>, r: seq<Task>, c: int)
    requires AllIn(s, c) && multiset(r) <= multiset(s)
    ensures AllIn(r, c)
  {
    forall k | 0 <= k < |r| ensures r[k].columnId == c {
      assert r[k] in multiset(r);
      assert r[k] in s;
    }
  }

  /** Both kinds of drop keep the board consistent; the cross-column one only
      because it rewrites the moved task's column id. */
  lemma DropKeepsConsistent(board: TasksByColumn, r: DropResult)
    requires DropFits(board, r) && Consistent(board)
    ensures Consistent(Dropped(board, r))
  {
    if r.destination.Some? {
      if r.source.droppableId == r.destination.value.droppableId {
        DropWithinConsistent(board, r);
      } else {
        DropAcrossConsistent(board, r);
      }
    }
  }

  lemma DropWithinConsistent(board: TasksByColumn, r: DropResult)
    requires DropFits(board, r) && Consistent(board)
    requires r.destination.Some? && r.source.droppableId == r.destination.value.droppableId
    ensures Consistent(Dropped(board, r))
  {
    var c := r.source.droppableId;
    var s := board[c];
    var s1 := Moved(s, r.source.index, r.destination.value.index);
    DroppedWithin(board, r);
    PermutedAllIn(s, s1, c);
    ConsistentUpdate(board, c, s1);
  }

  lemma DropAcrossConsistent(board: TasksByColumn, r: DropResult)
    requires DropFits(board, r) && Consistent(board)
    requires r.destination.Some? && r.source.droppableId != r.destination.value.droppableId
    ensures Consistent(Dropped(board, r))
  {
    var a, i, b, j := r.source.droppableId, r.source.index, r.destination.value.droppableId, r.destination.value.index;
    var s, t := board[a], ColumnOrEmpty(board, b);
    var s1 := RemoveAt(s, i);
    var t1 := InsertAt(t, j, s[i].(columnId := b));
    DroppedAcross(board, r);
    PermutedAllIn(s, s1, a);
    ConsistentUpdate(board, a, s1);
    assert AllIn(t, b);
    InsertedAllIn(t, j, s[i].(columnId := b), b);
    ConsistentUpdate(board[a := s1], b, t1);
  }

  /** A task naming column `c` put into a column of such tasks keeps them all in `c`. */
  lemma InsertedAllIn(t: seq<Task>, j: nat, x: Task, c: int)
    requires AllIn(t, c) && x.columnId == c && j <= |t|
    ensures AllIn(InsertAt(t, j, x), c)
  {
  }

  /** Replacing a column by tasks that all name it keeps the board consistent. */
  lemma ConsistentUpdate(board: TasksByColumn, c: int, s: seq<Task>)
    requires Consistent(board) && AllIn(s, c)
    ensures Consistent(board[c := s])
  {
  }

  /** Putting an element back where it was taken out restores the sequence. */
  lemma RemoveThenInsert<T>(s: seq<T>, i: nat)
    requires i < |s|
    ensures InsertAt(RemoveAt(s, i), i, s[i]) == s
  {
    var r := InsertAt(RemoveAt(s, i), i, s[i]);
    assert forall k :: 0 <= k < |s| ==> r[k] == s[k];
  }

  /** Taking out an element just put in restores the sequence. */
  lemma InsertThenRemove<T>(s: seq<T>, i: nat, x: T)
    requires i <= |s|
    ensures RemoveAt(InsertAt(s, i, x), i) == s
  {
    var r := RemoveAt(InsertAt(s, i, x), i);
    assert forall k :: 0 <= k < |s| ==> r[k] == s[k];
  }

  /** The drop that goes back from where `r` ended to where it started. */
  function Reversed(r: DropResult): DropResult
    requires r.destination.Some?
  {
    DropResult(r.draggableId, r.destination.value, Some(r.source))
  }

  /** Dropping a task back where it came from restores the board, when the
      task sat in the column its column id names (up to a destination column
      that the first drop created empty). */
  lemma DropBack(board: TasksByColumn, r: DropResult)
    requires DropFits(board, r) && r.destination.Some?
    requires board[r.source.droppableId][r.source.index].columnId == r.source.droppableId
    ensures DropFits(Dropped(board, r), Reversed(r))
    ensures Dropped(Dropped(board, r), Reversed(r)) ==
      if r.destination.value.droppableId in board then board
      else board[r.destination.value.droppableId := []]
  {
    if r.source.droppableId == r.destination.value.droppableId {
      DropBackWithin(board, r);
    } else {
      DropBackAcross(board, r);
    }
  }

  /** A same-column drop written out as the one column update. */
  lemma DroppedWithin(board: TasksByColumn, r: DropResult)
    requires DropFits(board, r)
    requires r.destination.Some? && r.source.droppableId == r.destination.value.droppableId
    ensures var c := r.source.droppableId;
      Dropped(board, r) == board[c := Moved(board[c], r.source.index, r.destination.value.index)]
  {
  }

  lemma DropBackWithin(board: TasksByColumn, r: DropResult)
    requires DropFits(board, r)
    requires r.destination.Some? && r.source.droppableId == r.destination.value.droppableId
    ensures DropFits(Dropped(board, r), Reversed(r))
    ensures Dropped(Dropped(board, r), Reversed(r)) == board
  {
    var c, i, j := r.source.droppableId, r.source.index, r.destination.value.index;
    var s := board[c];
    var s1 := Moved(s, i, j);
    DroppedWithin(board, r);
    var d: TasksByColumn := board[c := s1];
    assert Dropped(board, r) == d;
    var back := Reversed(r);
    assert back.source == Location(c, j) && back.destination == Some(Location(c, i));
    DroppedWithin(d, back);
    MovedBack(s, i, j);
    ColumnPutBack(board, c, s1);
  }

  /** Overwriting a column and writing back what it held restores the board. */
  lemma ColumnPutBack(board: TasksByColumn, c: int, s1: seq<Task>)
    requires c in board
    ensures board[c := s1][c := board[c]] == board
  {
  }

  /** A cross-column drop written out as the two column updates. */
  lemma DroppedAcross(board: TasksByColumn, r: DropResult)
    requires DropFits(board, r)
    requires r.destination.Some? && r.source.droppableId != r.destination.value.droppableId
    ensures var a, i, b, j := r.source.droppableId, r.source.index, r.destination.value.droppableId, r.destination.value.index;
      Dropped(board, r) ==
        board[a := RemoveAt(board[a], i)][b := InsertAt(ColumnOrEmpty(board, b), j, board[a][i].(columnId := b))]
  {
  }

  lemma DropBackAcross(board: TasksByColumn, r: DropResult)
    requires DropFits(board, r)
    requires r.destination.Some? && r.source.droppableId != r.destination.value.droppableId
    requires board[r.source.droppableId][r.source.index].columnId == r.source.droppableId
    ensures DropFits(Dropped(board, r), Reversed(r))
    ensures Dropped(Dropped(board, r), Reversed(r)) ==
      if r.destination.value.droppableId in board then board
      else board[r.destination.value.droppableId := []]
  {
    var a, i, b, j := r.source.droppableId, r.source.index, r.destination.value.droppableId, r.destination.value.index;
    var s, t := board[a], ColumnOrEmpty(board, b);
    var moved := s[i];
    var s1, t1 := RemoveAt(s, i), InsertAt(t, j, moved.(columnId := b));
    DroppedAcross(board, r);
    var d: TasksByColumn := Dropped(board, r);
    assert d == board[a := s1][b := t1];
    assert d[a] == s1 && d[b] == t1;
    assert DropFits(d, Reversed(r));
    assert t1[j].(columnId := a) == moved;
    RemoveThenInsert(s, i);
    InsertThenRemove(t, j, moved.(columnId := b));
    DroppedAcross(d, Reversed(r));
    assert Dropped(d, Reversed(r)) == d[b := t][a := s];
    ColumnsPutBack(board, a, b, s1, t1);
  }

  /** Overwriting two columns and then writing back what they held restores
      the board, except that a column the board lacked is now present and empty. */
  lemma ColumnsPutBack(board: TasksByColumn, a: int, b: int, s1: seq<Task>, t1: seq<Task>)
    requires a != b && a in board
    ensures board[a := s1][b := t1][b := ColumnOrEmpty(board, b)][a := board[a]] ==
      if b in board then board else board[b := []]
  {
  }

  /** The row the server writes for a drop agrees with the client's copy of
      the moved task except in its position: the client rewrites only the
      column id and keeps the position the task had before the drag. */
  lemma DropAgreesWithServerButPosition(board: TasksByColumn, r: DropResult)
    requires DropFits(board, r) && r.destination.Some?
    requires board[r.source.droppableId][r.source.index].columnId == r.source.droppableId
    ensures var dst := r.destination.value;
      var local := Dropped(board, r)[dst.droppableId][dst.index];
      var t := board[r.source.droppableId][r.source.index];
      TasksRoute.Apply(t, TasksRoute.Reposition(dst.droppableId, dst.index)) == local.(position := dst.index)
  {
    if r.source.droppableId == r.destination.value.droppableId {
      DroppedWithin(board, r);
    } else {
      DroppedAcross(board, r);
    }
  }

  /** The request a drop sends names the task that moved on the board: the
      one now at the drop index of the destination column. */
  lemma DropRequestNamesMovedTask(board: TasksByColumn, r: DropResult)
    requires DropFits(board, r) && r.destination.Some?
    ensures var dst := r.destination.value;
      MoveRequest(r).value.id == Some(Dropped(board, r)[dst.droppableId][dst.index].id)
  {
    if r.source.droppableId == r.destination.value.droppableId {
      DroppedWithin(board, r);
    } else {
      DroppedAcross(board, r);
    }
  }

  // ---------------------------------------------------------------------
  // Local updaters.

  /** The one field a local update writes. */
  datatype TaskEdit = EditTitle(title: string) | EditPriority(priority: int) | EditColor(color: string)

  /** `{ ...t, <field>: value }`. */
  function Patched(t: Task, e: TaskEdit): (r: Task)
    ensures r.id == t.id && r.columnId == t.columnId && r.position == t.position
    ensures r.description == t.description && r.createdAt == t.createdAt
    ensures r.title == (if e.EditTitle? then e.title else t.title)
    ensures r.priority == (if e.EditPriority? then Some(e.priority) else t.priority)
    ensures r.color == (if e.EditColor? then Some(e.color) else t.color)
  {
    match e
    case EditTitle(s) => t.(title := s)
    case EditPriority(p) => t.(priority := Some(p))
    case EditColor(c) => t.(color := Some(c))
  }

  /** The client's patch of a task is exactly the server's update of its row. */
  lemma PatchedAsServer(t: Task, e: TaskEdit)
    ensures Patched(t, e) == TasksRoute.Apply(t, match e
      case EditTitle(s) => TasksRoute.SetTitle(s)
      case EditPriority(p) => TasksRoute.SetPriority(p)
      case EditColor(c) => TasksRoute.SetColor(c))
  {
  }

  /** `tasks.map(t => t.id === id ? patched : t)`. */
  function PatchColumn(s: seq<Task>, id: int, e: TaskEdit): (r: seq<Task>)
    ensures |r| == |s|
    ensures forall k :: 0 <= k < |s| ==> r[k] == if s[k].id == id then Patched(s[k], e) else s[k]
  {
    if s == [] then [] else [if s[0].id == id then Patched(s[0], e) else s[0]] + PatchColumn(s[1..], id, e)
  }

  /** `tasks.filter(t => t.id !== id)`: every task with that id goes, every
      other task stays as often as it was there. */
  function WithoutTask(s: seq<Task>, id: int): (r: seq<Task>)
    ensures forall t :: multiset(r)[t] == if t.id == id then 0 else multiset(s)[t]
    ensures |r| <= |s|
  {
    if s == [] then []
    else
      assert s == [s[0]] + s[1..];
      if s[0].id == id then WithoutTask(s[1..], id) else [s[0]] + WithoutTask(s[1..], id)
  }

  /** `filter` works element by element: filtering a concatenation filters
      each part, so together with the counts above the surviving tasks keep
      their order. */
  lemma {:induction false} WithoutTaskConcat(s1: seq<Task>, s2: seq<Task>, id: int)
    ensures WithoutTask(s1 + s2, id) == WithoutTask(s1, id) + WithoutTask(s2, id)
  {
    if s1 == [] {
      assert s1 + s2 == s2;
    } else {
      assert (s1 + s2)[0] == s1[0];
      assert (s1 + s2)[1..] == s1[1..] + s2;
      WithoutTaskConcat(s1[1..], s2, id);
    }
  }

  /** A column without a task of that id is left exactly as it was. */
  lemma {:induction false} WithoutTaskAbsent(s: seq<Task>, id: int)
    requires forall k :: 0 <= k < |s| ==> s[k].id != id
    ensures WithoutTask(s, id) == s
  {
    if s != [] {
      WithoutTaskAbsent(s[1..], id);
      assert s == [s[0]] + s[1..];
    }
  }

  /** What a local updater does to each column's sequence. */
  datatype ColumnEdit = Patch(id: int, edit: TaskEdit) | Remove(id: int)

  function EditColumn(s: seq<Task>, e: ColumnEdit): seq<Task> {
    match e
    case Patch(id, edit) => PatchColumn(s, id, edit)
    case Remove(id) => WithoutTask(s, id)
  }

  /** The updater loop: copy the board and overwrite every column with its
      edited sequence. */
  method EditColumns(board: TasksByColumn, e: ColumnEdit) returns (r: TasksByColumn)
    ensures r.Keys == board.Keys
    ensures forall c :: c in board ==> r[c] == EditColumn(board[c], e)
  {
    r := board;
    var pending := board.Keys;
    while pending != {}
      invariant pending <= board.Keys && r.Keys == board.Keys
      invariant forall c :: c in board && c !in pending ==> r[c] == EditColumn(board[c], e)
      decreases pending
    {
      SomeElement(pending);
      var c :| c in pending;
      r := r[c := EditColumn(board[c], e)];
      pending := pending - {c};
    }
  }

  /** A patch keeps every column's length and every task with another id,
      and changes only the edited field of the tasks with that id. */
  lemma PatchOnlyThatTask(board: TasksByColumn, id: int, e: TaskEdit, c: int, k: int)
    requires c in board && 0 <= k < |board[c]|
    ensures var s := EditColumn(board[c], Patch(id, e));
      && |s| == |board[c]|
      && (board[c][k].id != id ==> s[k] == board[c][k])
      && (board[c][k].id == id ==> s[k] == Patched(board[c][k], e))
  {
  }

  /** Patches and removals keep the board consistent. */
  lemma EditKeepsConsistent(board: TasksByColumn, e: ColumnEdit, r: TasksByColumn)
    requires Consistent(board)
    requires r.Keys == board.Keys && forall c :: c in board ==> r[c] == EditColumn(board[c], e)
    ensures Consistent(r)
  {
    forall c | c in r ensures AllIn(r[c], c) {
      EditColumnAllIn(board[c], c, e);
    }
  }

  /** One column's patch or removal keeps its tasks in that column. */
  lemma EditColumnAllIn(s: seq<Task>, c: int, e: ColumnEdit)
    requires AllIn(s, c)
    ensures AllIn(EditColumn(s, e), c)
  {
    match e
    case Patch(id, edit) =>
      var r := PatchColumn(s, id, edit);
      forall k | 0 <= k < |r| ensures r[k].columnId == c {
        assert s[k].columnId == c;
      }
    case Remove(id) =>
      PermutedAllIn(s, WithoutTask(s, id), c);
  }

  /** `task.priority === 1 ? 0 : 1`. */
  function TogglePriority(p: Option<int>): (r: int)
    ensures r == 0 || r == 1
    ensures r == 0 <==> p == Some(1)
  {
    if p == Some(1) then 0 else 1
  }

  /** Toggling twice gives back a priority of 0 or 1; anything else is
      normalised to 1 by the first toggle. */
  lemma ToggleTwice(p: Option<int>)
    ensures TogglePriority(Some(TogglePriority(p))) == if p == Some(0) || p == Some(1) then p.value else 0
  {
  }

  /** The first index in `s` of a task with that id. */
  function IndexOfId(s: seq<Task>, id: int): (r: Option<nat>)
    ensures r.Some? ==> r.value < |s| && s[r.value].id == id && forall k :: 0 <= k < r.value ==> s[k].id != id
    ensures r.None? ==> forall k :: 0 <= k < |s| ==> s[k].id != id
  {
    if s == [] then None
    else if s[0].id == id then Some(0)
    else match IndexOfId(s[1..], id)
      case None => None
      case Some(i) => Some(i + 1)
  }

  /** Some column of `board` holds a task with that id. */
  ghost predicate HoldsId(board: TasksByColumn, c: int, id: int) {
    c in board && exists k :: 0 <= k < |board[c]| && board[c][k].id == id
  }

  /** A set that is not empty has an element. */
  lemma SomeElement(s: set<int>)
    requires s != {}
    ensures exists x :: x in s
  {
    if forall x :: x !in s {
      assert false;
    }
  }

  lemma MinimumExists(s: set<int>)
    requires s != {}
    ensures exists m :: m in s && forall d :: d in s ==> m <= d
  {
    SomeElement(s);
    var x :| x in s;
    if s != {x} {
      MinimumExists(s - {x});
      var m :| m in s - {x} && forall d :: d in s - {x} ==> m <= d;
      var least := if x < m then x else m;
      forall d | d in s ensures least <= d {
        if d != x {
          assert d in s - {x};
        }
      }
    }
  }

  /** `t` is the first task with that id when the columns are read in
      ascending key order, each from its start. */
  ghost predicate FirstWithId(board: TasksByColumn, id: int, t: Task) {
    t.id == id && exists c, k ::
      && c in board && 0 <= k < |board[c]| && board[c][k] == t
      && (forall c' :: c' in board && c' < c ==> !HoldsId(board, c', id))
      && (forall k' :: 0 <= k' < k ==> board[c][k'].id != id)
  }

  /** There is at most one first task with a given id. */
  lemma FirstWithIdUnique(board: TasksByColumn, id: int, t1: Task, t2: Task)
    requires FirstWithId(board, id, t1) && FirstWithId(board, id, t2)
    ensures t1 == t2
  {
    var c1, k1 :| && c1 in board && 0 <= k1 < |board[c1]| && board[c1][k1] == t1
                  && (forall c' :: c' in board && c' < c1 ==> !HoldsId(board, c', id))
                  && (forall k' :: 0 <= k' < k1 ==> board[c1][k'].id != id);
    var c2, k2 :| && c2 in board && 0 <= k2 < |board[c2]| && board[c2][k2] == t2
                  && (forall c' :: c' in board && c' < c2 ==> !HoldsId(board, c', id))
                  && (forall k' :: 0 <= k' < k2 ==> board[c2][k'].id != id);
    assert HoldsId(board, c1, id) && HoldsId(board, c2, id);
    assert c1 == c2;
  }

  /** `Object.values(tasks).flat().find(t => t.id === id)`: the columns are
      visited in ascending key order and the first task with that id is
      returned. */
  method FindTask(board: TasksByColumn, id: int) returns (r: Option<Task>)
    ensures r.None? <==> forall c :: c in board ==> !HoldsId(board, c, id)
    ensures r.Some? ==> FirstWithId(board, id, r.value)
  {
    var pending := board.Keys;
    while pending != {}
      invariant pending <= board.Keys
      invariant forall c, d :: c in board && c !in pending && d in pending ==> c < d
      invariant forall c :: c in board && c !in pending ==> !HoldsId(board, c, id)
      decreases pending
    {
      MinimumExists(pending);
      var c :| c in pending && forall d :: d in pending ==> c <= d;
      var found := IndexOfId(board[c], id);
      if found.Some? {
        return Some(board[c][found.value]);
      }
      pending := pending - {c};
    }
    return None;
  }

  /** `prev.map(p => p.id === id ? { ...p, name } : p)`. */
  function Renamed(ps: seq<Project>, id: int, name: string): (r: seq<Project>)
    ensures |r| == |ps|
    ensures forall k :: 0 <= k < |ps| ==> r[k] == if ps[k].id == id then ps[k].(name := name) else ps[k]
  {
    if ps == [] then [] else [if ps[0].id == id then ps[0].(name := name) else ps[0]] + Renamed(ps[1..], id, name)
  }

  // ---------------------------------------------------------------------
  // The page's state and its handlers.

  /** The page's state. A handler that waits for the server takes the
      outcome as a parameter: `ok` is whether the response was a success,
      a reply is the parsed body. */
  class Page {
    var projects: seq<Project>
    var tasks: TasksByColumn
    var newTaskTitles: map<int, string>
    var isEditingProject: bool

    /** The state before anything is fetched. */
    constructor ()
      ensures projects == [] && tasks == map[] && newTaskTitles == map[] && !isEditingProject
    {
      projects, tasks, newTaskTitles, isEditingProject := [], map[], map[], false;
    }

    /** The drag-end handler. Without a destination nothing happens and
        nothing is sent. A drop in the same column splices a copy of it in
        place; a drop across columns splices copies of both. Then the move
        request is sent. */
    method OnDragEnd(result: DropResult) returns (request: Option<TasksRoute.TaskPut>)
      requires DropFits(tasks, result)
      modifies this`tasks
      ensures tasks == Dropped(old(tasks), result)
      ensures request == MoveRequest(result)
    {
      if result.destination.None? {
        return None;
      }
      var source, destination := result.source, result.destination.value;
      if source.droppableId == destination.droppableId {
        MoveInColumn(source.droppableId, source.index, destination.index);
        request := Some(TasksRoute.TaskPut(Some(result.draggableId), Some(source.droppableId), Some(destination.index), None, None, None));
      } else {
        MoveAcross(source.droppableId, source.index, destination.droppableId, destination.index);
        request := Some(TasksRoute.TaskPut(Some(result.draggableId), Some(destination.droppableId), Some(destination.index), None, None, None));
      }
    }

    /** The same-column branch: the column is copied, spliced in place and stored. */
    method MoveInColumn(columnId: int, from: nat, to: nat)
      requires columnId in tasks && from < |tasks[columnId]| && to < |tasks[columnId]|
      modifies this`tasks
      ensures tasks == old(tasks)[columnId := Moved(old(tasks)[columnId], from, to)]
    {
      var columnTasks := CopyOf(tasks[columnId]);
      MoveWithin(columnTasks, from, to);
      tasks := tasks[columnId := columnTasks[..]];
    }

    /** The cross-column branch: the task leaves the source copy and enters
        the destination copy with the destination as its column id. */
    method MoveAcross(sourceColumnId: int, from: nat, destColumnId: int, to: nat)
      requires sourceColumnId in tasks && from < |tasks[sourceColumnId]|
      requires to <= |ColumnOrEmpty(tasks, destColumnId)|
      modifies this`tasks
      ensures var moved := old(tasks)[sourceColumnId][from];
        tasks == old(tasks)[sourceColumnId := RemoveAt(old(tasks)[sourceColumnId], from)]
                           [destColumnId := InsertAt(ColumnOrEmpty(old(tasks), destColumnId), to,
                                                     moved.(columnId := destColumnId))]
    {
      var sourceTasks := tasks[sourceColumnId];
      var destTasks := ColumnOrEmpty(tasks, destColumnId);
      var movedTask := sourceTasks[from];
      sourceTasks := RemoveAt(sourceTasks, from);
      destTasks := InsertAt(destTasks, to, movedTask.(columnId := destColumnId));
      tasks := tasks[sourceColumnId := sourceTasks][destColumnId := destTasks];
    }

    /** The create-task handler. With no text typed for the column nothing is
        sent. Otherwise the request asks for position = the column's current
        length (0 for a column the board lacks); when the server answers with
        a task, it is appended to the column and the column's input is cleared. */
    method CreateTask(columnId: int, reply: Option<Task>) returns (request: Option<TasksRoute.TaskPost>)
      modifies this`tasks, this`newTaskTitles
      ensures var title := if columnId in old(newTaskTitles) then old(newTaskTitles)[columnId] else "";
        && (request.None? <==> title == "")
        && (request.Some? ==> request.value == TasksRoute.TaskPost(Some(columnId), Some(title), None,
                                                  Some(|ColumnOrEmpty(old(tasks), columnId)|), None))
    ensures request.Some? && reply.Some? ==>
        && tasks == old(tasks)[columnId := ColumnOrEmpty(old(tasks), columnId) + [reply.value]]
        && newTaskTitles == old(newTaskTitles)[columnId := ""]
      ensures request.None? || reply.None? ==> tasks == old(tasks) && newTaskTitles == old(newTaskTitles)
    {
      if columnId !in newTaskTitles || newTaskTitles[columnId] == "" {
        return None;
      }
      var title := newTaskTitles[columnId];
      request := Some(TasksRoute.TaskPost(Some(columnId), Some(title), None, Some(|ColumnOrEmpty(tasks, columnId)|), None));
      if reply.Some? {
        tasks := tasks[columnId := ColumnOrEmpty(tasks, columnId) + [reply.value]];
        newTaskTitles := newTaskTitles[columnId := ""];
      }
    }

    /** The title handler: on success, every task with that id gets the
        new title. */
    method TitleChanged(taskId: int, title: string, ok: bool) returns (request: TasksRoute.TaskPut)
      modifies this`tasks
      ensures request == TasksRoute.TaskPut(Some(taskId), None, None, None, None, Some(title))
      ensures TasksRoute.Dispatch(request) == Some(TasksRoute.SetTitle(title))
      ensures tasks.Keys == old(tasks).Keys
      ensures forall c :: c in tasks ==> tasks[c] == if ok then PatchColumn(old(tasks)[c], taskId, EditTitle(title)) else old(tasks)[c]
    {
      request := TasksRoute.TaskPut(Some(taskId), None, None, None, None, Some(title));
      if ok {
        tasks := EditColumns(tasks, Patch(taskId, EditTitle(title)));
      }
    }

    /** The priority handler: the first task with that id is looked up; if
        there is none nothing is sent. Otherwise its toggled priority is sent
        and, on success, written into every task with that id. */
    method PriorityToggled(taskId: int, ok: bool) returns (request: Option<TasksRoute.TaskPut>)
      modifies this`tasks
      ensures request.None? <==> forall c :: c in old(tasks) ==> !HoldsId(old(tasks), c, taskId)
      ensures request.Some? ==> exists found ::
        && FirstWithId(old(tasks), taskId, found)
        && var p := TogglePriority(found.priority);
        && request.value == TasksRoute.TaskPut(Some(taskId), None, None, Some(p), None, None)
        && TasksRoute.Dispatch(request.value) == Some(TasksRoute.SetPriority(p))
        && tasks.Keys == old(tasks).Keys
        && forall c :: c in tasks ==> tasks[c] == if ok then PatchColumn(old(tasks)[c], taskId, EditPriority(p)) else old(tasks)[c]
      ensures request.None? ==> tasks == old(tasks)
    {
      var task := FindTask(tasks, taskId);
      if task.None? {
        return None;
      }
      var newPriority := TogglePriority(task.value.priority);
      request := Some(TasksRoute.TaskPut(Some(taskId), None, None, Some(newPriority), None, None));
      if ok {
        tasks := EditColumns(tasks, Patch(taskId, EditPriority(newPriority)));
      }
    }

    /** The colour handler: on success, every task with that id gets the
        new colour. */
    method ColorChanged(taskId: int, color: string, ok: bool) returns (request: TasksRoute.TaskPut)
      modifies this`tasks
      ensures request == TasksRoute.TaskPut(Some(taskId), None, None, None, Some(color), None)
      ensures TasksRoute.Dispatch(request) == Some(TasksRoute.SetColor(color))
      ensures tasks.Keys == old(tasks).Keys
      ensures forall c :: c in tasks ==> tasks[c] == if ok then PatchColumn(old(tasks)[c], taskId, EditColor(color)) else old(tasks)[c]
    {
      request := TasksRoute.TaskPut(Some(taskId), None, None, None, Some(color), None);
      if ok {
        tasks := EditColumns(tasks, Patch(taskId, EditColor(color)));
      }
    }

    /** The delete handler: the request carries the id; on success every task
        with that id is filtered out of every column. */
    method TaskDeleted(taskId: int, ok: bool) returns (request: TasksRoute.TaskDelete)
      modifies this`tasks
      ensures request == TasksRoute.TaskDelete(Some(taskId))
      ensures FalsyInt(request.id) <==> taskId == 0
      ensures tasks.Keys == old(tasks).Keys
      ensures forall c :: c in tasks ==> tasks[c] == if ok then WithoutTask(old(tasks)[c], taskId) else old(tasks)[c]
    {
      request := TasksRoute.TaskDelete(Some(taskId));
      if ok {
        tasks := EditColumns(tasks, Remove(taskId));
      }
    }

    /** The create-project handler: only the name is sent, and the parsed
        reply is appended to the list whatever the response status was. */
    method ProjectCreated(name: string, reply: Project) returns (request: ProjectsRoute.ProjectPost)
      modifies this`projects
      ensures request == ProjectsRoute.ProjectPost(Some(name), None)
      ensures projects == old(projects) + [reply]
    {
      request := ProjectsRoute.ProjectPost(Some(name), None);
      projects := projects + [reply];
    }

    /** The rename handler: on success every listed project with that id takes
        the new name and editing ends; on failure nothing changes. */
    method ProjectNameChanged(projectId: int, newName: string, ok: bool) returns (request: ProjectsRoute.ProjectRename)
      modifies this`projects, this`isEditingProject
      ensures request == ProjectsRoute.ProjectRename(Some(projectId), Some(newName))
      ensures FalsyInt(request.id) || FalsyString(request.name) <==> projectId == 0 || newName == ""
      ensures ok ==> projects == Renamed(old(projects), projectId, newName) && !isEditingProject
      ensures !ok ==> projects == old(projects) && isEditingProject == old(isEditingProject)
    {
      request := ProjectsRoute.ProjectRename(Some(projectId), Some(newName));
      if ok {
        projects := Renamed(projects, projectId, newName);
        isEditingProject := false;
      }
    }
  }
}
