/** The maintenance script: gives every existing project each default column
    it lacks, judged by exact name. */
module InitDb {
  import opened Schema
  import opened Store
  import ProjectsRoute

  /** Project `pid` has a column called `name`. */
  ghost predicate HasColumnNamed(columns: map<int, Column>, pid: int, name: string) {
    exists k :: k in columns && columns[k].projectId == pid && columns[k].name == name
  }

  /** `c` is one of the default columns, with that column's rank. */
  ghost predicate IsDefaultColumn(c: Column) {
    exists j :: 0 <= j < |ProjectsRoute.DefaultColumns| &&
      c.name == ProjectsRoute.DefaultColumns[j].name && c.position == ProjectsRoute.DefaultColumns[j].position
  }

  /** The names of the first `j` default columns. */
  ghost function NamesBefore(j: nat): set<string>
    requires j <= |ProjectsRoute.DefaultColumns|
  {
    set i | 0 <= i < j :: ProjectsRoute.DefaultColumns[i].name
  }

  lemma NamesBeforeStep(j: nat)
    requires j < |ProjectsRoute.DefaultColumns|
    ensures NamesBefore(j + 1) == NamesBefore(j) + {ProjectsRoute.DefaultColumns[j].name}
  {
  }

  /** The default names are pairwise different. */
  lemma DefaultNamesDistinct(j: nat)
    requires j < |ProjectsRoute.DefaultColumns|
    ensures ProjectsRoute.DefaultColumns[j].name !in NamesBefore(j)
  {
  }

  /** Every project has a column of every default name. */
  ghost predicate Complete(projects: map<int, Project>, columns: map<int, Column>) {
    forall p, j :: p in projects && 0 <= j < |ProjectsRoute.DefaultColumns| ==>
      HasColumnNamed(columns, p, ProjectsRoute.DefaultColumns[j].name)
  }

  /** A column of `after` that `before` did not have. */
  ghost predicate Added(before: map<int, Column>, after: map<int, Column>, k: int) {
    k in after && k !in before
  }

  /** `after` keeps every column of `before` as it was, and each column it adds
      is a default column its project lacked in `before`, added once. */
  ghost predicate AddsOnlyMissing(before: map<int, Column>, after: map<int, Column>) {
    && (forall k :: k in before ==> k in after && after[k] == before[k])
    && (forall k :: Added(before, after, k) ==>
          IsDefaultColumn(after[k]) && !HasColumnNamed(before, after[k].projectId, after[k].name))
    && (forall k1, k2 :: Added(before, after, k1) && Added(before, after, k2) && k1 != k2 ==>
          after[k1].projectId != after[k2].projectId || after[k1].name != after[k2].name)
  }

  /** The backfill. For each project, the names of its columns are read
      once, and every default column whose name is not among them is inserted
      with its default rank. Projects and tasks are not touched. */
  method Backfill(db: Database)
    requires db.Valid()
    modifies db`columns, db`lastColumnId, db`usedColumnIds
    ensures db.Valid()
    ensures Complete(db.projects, db.columns)
    ensures AddsOnlyMissing(old(db.columns), db.columns)
    ensures forall k :: Added(old(db.columns), db.columns, k) ==> k !in old(db.usedColumnIds)
    ensures old(Complete(db.projects, db.columns)) ==> db.columns == old(db.columns)
  {
    var p := 1;
    while p <= db.lastProjectId
      invariant 1 <= p <= db.lastProjectId + 1
      invariant db.Valid()
      invariant AddsOnlyMissing(old(db.columns), db.columns)
      invariant forall k :: Added(old(db.columns), db.columns, k) ==> k !in old(db.usedColumnIds)
      invariant forall k :: k in old(db.usedColumnIds) ==> k <= db.lastColumnId
      invariant forall k :: Added(old(db.columns), db.columns, k) ==> db.columns[k].projectId < p
      invariant forall q, j :: q in db.projects && q < p && 0 <= j < |ProjectsRoute.DefaultColumns| ==>
        HasColumnNamed(db.columns, q, ProjectsRoute.DefaultColumns[j].name)
    {
      if p in db.projects {
        BackfillProject(db, p, old(db.columns), old(db.usedColumnIds));
      }
      p := p + 1;
    }
    if Complete(db.projects, old(db.columns)) {
      BackfillIdempotent(db.projects, old(db.columns), db.columns);
    }
  }

  /** The names of project `p`'s columns. */
  function ColumnNames(columns: map<int, Column>, p: int): (r: set<string>)
    ensures forall name :: name in r <==> HasColumnNamed(columns, p, name)
  {
    set k | k in columns && columns[k].projectId == p :: columns[k].name
  }

  /** What the inner loop keeps, after the first `j` default columns, about
      the table `cols` it has grown from `here` (the table when the turn for
      project `p` began), which itself grew from `start`. */
  ghost predicate Progress(start: map<int, Column>, startIds: set<int>, here: map<int, Column>,
                           cols: map<int, Column>, last: int, p: int, j: nat)
    requires j <= |ProjectsRoute.DefaultColumns|
  {
    && AddsOnlyMissing(start, cols)
    && (forall k :: Added(start, cols, k) ==> k !in startIds)
    && (forall k :: k in startIds ==> k <= last)
    && (forall k :: k in here ==> k in cols && cols[k] == here[k])
    && (forall k :: Added(here, cols, k) ==> cols[k].projectId == p && cols[k].name in NamesBefore(j))
    && (forall i :: 0 <= i < j ==> HasColumnNamed(cols, p, ProjectsRoute.DefaultColumns[i].name))
  }

  /** One turn of the outer loop: the default columns project `p` lacks. */
  method BackfillProject(db: Database, p: int, ghost start: map<int, Column>, ghost startIds: set<int>)
    requires db.Valid() && p in db.projects
    requires AddsOnlyMissing(start, db.columns)
    requires forall k :: Added(start, db.columns, k) ==> k !in startIds
    requires forall k :: k in startIds ==> k <= db.lastColumnId
    requires forall k :: Added(start, db.columns, k) ==> db.columns[k].projectId < p
    modifies db`columns, db`lastColumnId, db`usedColumnIds
    ensures db.Valid()
    ensures AddsOnlyMissing(start, db.columns)
    ensures forall k :: Added(start, db.columns, k) ==> k !in startIds
    ensures forall k :: k in startIds ==> k <= db.lastColumnId
    ensures forall k :: Added(old(db.columns), db.columns, k) ==> db.columns[k].projectId == p
    ensures forall k :: k in old(db.columns) ==> k in db.columns && db.columns[k] == old(db.columns)[k]
    ensures forall j :: 0 <= j < |ProjectsRoute.DefaultColumns| ==>
      HasColumnNamed(db.columns, p, ProjectsRoute.DefaultColumns[j].name)
  {
    var names := ColumnNames(db.columns, p);
    ghost var here := db.columns;
    var j := 0;
    while j < |ProjectsRoute.DefaultColumns|
      invariant 0 <= j <= |ProjectsRoute.DefaultColumns|
      invariant db.Valid()
      invariant Progress(start, startIds, here, db.columns, db.lastColumnId, p, j)
    {
      var column := ProjectsRoute.DefaultColumns[j];
      if column.name !in names {
        ghost var before := db.columns;
        var id := db.InsertColumn(p, column.name, column.position);
        InsertStep(start, startIds, here, before, db.columns, db.lastColumnId, p, j);
      } else {
        SkipStep(start, startIds, here, db.columns, db.lastColumnId, p, j);
      }
      j := j + 1;
    }
  }

  /** A turn that inserts the `j`-th default column, which `here` lacks. */
  lemma InsertStep(start: map<int, Column>, startIds: set<int>, here: map<int, Column>,
                   before: map<int, Column>, after: map<int, Column>, id: int, p: int, j: nat)
    requires j < |ProjectsRoute.DefaultColumns|
    requires AddsOnlyMissing(start, here)
    requires forall k :: Added(start, here, k) ==> here[k].projectId < p
    requires !HasColumnNamed(here, p, ProjectsRoute.DefaultColumns[j].name)
    requires Progress(start, startIds, here, before, id - 1, p, j)
    requires id !in before
    requires after == before[id := Column(id, p, ProjectsRoute.DefaultColumns[j].name, ProjectsRoute.DefaultColumns[j].position)]
    ensures Progress(start, startIds, here, after, id, p, j + 1)
  {
    var column := ProjectsRoute.DefaultColumns[j];
    NotYetNamed(start, here, before, p, column.name, j);
    AddOne(start, before, id, Column(id, p, column.name, column.position));
    NamedStaysNamed(before, after);
    NamesBeforeStep(j);
    assert after[id].name == column.name;
  }

  /** Adding one default column its project lacks, under a name no column
      added so far gives that project, keeps `AddsOnlyMissing`. */
  lemma AddOne(start: map<int, Column>, before: map<int, Column>, id: int, c: Column)
    requires AddsOnlyMissing(start, before)
    requires id !in before
    requires IsDefaultColumn(c) && !HasColumnNamed(start, c.projectId, c.name)
    requires forall k :: k in before && before[k].projectId == c.projectId ==> before[k].name != c.name
    ensures AddsOnlyMissing(start, before[id := c])
  {
    var after := before[id := c];
    assert id !in start;
    forall k | Added(start, after, k) ensures
      IsDefaultColumn(after[k]) && !HasColumnNamed(start, after[k].projectId, after[k].name)
    {
      if k != id {
        assert Added(start, before, k);
      }
    }
    forall k1, k2 | Added(start, after, k1) && Added(start, after, k2) && k1 != k2
      ensures after[k1].projectId != after[k2].projectId || after[k1].name != after[k2].name
    {
      if k1 != id && k2 != id {
        assert Added(start, before, k1) && Added(start, before, k2);
      }
    }
  }

  /** A turn that skips the `j`-th default column, which `here` already has. */
  lemma SkipStep(start: map<int, Column>, startIds: set<int>, here: map<int, Column>,
                 cols: map<int, Column>, last: int, p: int, j: nat)
    requires j < |ProjectsRoute.DefaultColumns|
    requires HasColumnNamed(here, p, ProjectsRoute.DefaultColumns[j].name)
    requires Progress(start, startIds, here, cols, last, p, j)
    ensures Progress(start, startIds, here, cols, last, p, j + 1)
  {
    var k :| k in here && here[k].projectId == p && here[k].name == ProjectsRoute.DefaultColumns[j].name;
    assert cols[k] == here[k];
    NamesBeforeStep(j);
  }

  /** The column a turn of the inner loop inserts is missing from the
      starting table and differs in name from the ones this turn added before. */
  lemma NotYetNamed(start: map<int, Column>, here: map<int, Column>, before: map<int, Column>, p: int, name: string, j: nat)
    requires j < |ProjectsRoute.DefaultColumns| && name == ProjectsRoute.DefaultColumns[j].name
    requires forall k :: k in start ==> k in here && here[k] == start[k]
    requires forall k :: Added(start, here, k) ==> here[k].projectId < p
    requires forall k :: k in here && here[k].projectId == p ==> here[k].name != name
    requires forall k :: k in here ==> k in before && before[k] == here[k]
    requires forall k :: Added(here, before, k) ==> before[k].projectId == p && before[k].name in NamesBefore(j)
    ensures !HasColumnNamed(start, p, name)
    ensures forall k :: k in before && before[k].projectId == p ==> before[k].name != name
  {
    DefaultNamesDistinct(j);
    forall k | k in start && start[k].projectId == p ensures start[k].name != name {
      assert here[k] == start[k];
    }
    forall k | k in before && before[k].projectId == p ensures before[k].name != name {
      if k !in here {
        assert Added(here, before, k);
      }
    }
  }

  /** A table that keeps every row of another keeps every name the other has. */
  lemma NamedStaysNamed(before: map<int, Column>, after: map<int, Column>)
    requires forall k :: k in before ==> k in after && after[k] == before[k]
    ensures forall p, name :: HasColumnNamed(before, p, name) ==> HasColumnNamed(after, p, name)
  {
    forall p, name | HasColumnNamed(before, p, name) ensures HasColumnNamed(after, p, name) {
      var k :| k in before && before[k].projectId == p && before[k].name == name;
      assert k in after && after[k] == before[k];
    }
  }

  /** A second run adds nothing: once every project has every default name,
      a backfill that only adds missing columns changes no column. */
  lemma BackfillIdempotent(projects: map<int, Project>, before: map<int, Column>, after: map<int, Column>)
    requires Complete(projects, before)
    requires AddsOnlyMissing(before, after)
    requires forall k :: k in after ==> after[k].projectId in projects
    ensures after == before
  {
    forall k | k in after ensures k in before {
      if k !in before {
        assert Added(before, after, k);
        assert false;
      }
    }
    assert forall k :: k in before ==> k in after;
    assert after.Keys == before.Keys;
    forall k | k in after ensures after[k] == before[k] {
    }
  }
}
