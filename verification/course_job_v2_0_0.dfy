/**
 * CourseJob of version 2.0.0, a reviser job: for every legacy `course` row of the page it
 * looks up the `course` row with the row's name (column 1). A found row gets the location of
 * column 5 and the run's version; otherwise a new row is saved that holds only that location
 * and the version. The new row's name stays empty, so a later lookup never finds it.
 * Rollback nulls the location of the rows tagged with the version, then retags them "1.0.0".
 */
module CourseJobV2_0_0 {
  import opened Wrappers
  import opened Pages
  import opened Store
  import opened Domain
  import opened CourseRepository

  /** Declared descriptor: version "2.0.0", order 2. */
  const Version := "2.0.0"
  const Order := 2

  /** The version rollback retags to, whatever version it is asked to roll back. */
  const PreviousVersion := "1.0.0"

  /** Columns 0 .. 5 of a legacy course row are read. */
  const Width := 6

  /** Every name the rows look up matches at most one stored course. */
  predicate KeysUnique(t: CourseTable, rows: seq<Row>)
    requires Wide(rows, Width)
  {
    forall k :: 0 <= k < |rows| ==> AtMostOneName(t.rows, rows[k][1])
  }

  /** A course after the loop body's two setters. */
  function Revised(c: Course, location: string, v: string): Course {
    c.(version := Some(v), fields := c.fields.(location := Some(location)))
  }

  /** The row saved for a name that matches no course: a `new Course()` with location and version only. */
  function Shell(id: nat, location: string, v: string): Course {
    Record(Some(id), Some(v), NoCourseFields.(location := Some(location)))
  }

  /** Saving the revised copy of the course found by name rewrites that course's row only. */
  lemma SaveFound(t: CourseTable, row: Row, v: string)
    requires |row| >= Width && Valid(t) && AtMostOneName(t.rows, row[1])
    ensures forall j :: 0 <= j < |t.rows| && t.rows[j].fields.name == Some(row[1]) ==>
              Save(t, Revised(FindByName(t, row[1]).GetOr(NewCourse), row[5], v))
              == Table(t.rows[j := Revised(t.rows[j], row[5], v)], t.nextId)
  {
    forall j | 0 <= j < |t.rows| && t.rows[j].fields.name == Some(row[1]) {
      SaveReplacesRow(t, j, Revised(t.rows[j], row[5], v));
    }
  }

  /** One iteration of the loop of migrate: find by name or else `new Course()`, set, save. */
  function MigrateRow(t: CourseTable, row: Row, v: string): (r: CourseTable)
    requires |row| >= Width && Valid(t) && AtMostOneName(t.rows, row[1])
    ensures Valid(r)
    ensures forall j :: 0 <= j < |t.rows| && t.rows[j].fields.name == Some(row[1]) ==>
              r == Table(t.rows[j := Revised(t.rows[j], row[5], v)], t.nextId)
    ensures !HasName(t.rows, row[1]) ==> r == Table(t.rows + [Shell(t.nextId, row[5], v)], t.nextId + 1)
  {
    var course := FindByName(t, row[1]).GetOr(NewCourse);
    SaveFound(t, row, v);
    Save(t, Revised(course, row[5], v))
  }

  /**
   * A step of a run with version `v`: every stored name stays in place, a stored row keeps
   * its tag or takes `v`, and the rows added have no name and are tagged `v`.
   */
  ghost predicate Extends(t: CourseTable, r: CourseTable, v: string) {
    && |r.rows| >= |t.rows|
    && (forall j :: 0 <= j < |t.rows| ==>
          r.rows[j].fields.name == t.rows[j].fields.name
          && (r.rows[j].version == t.rows[j].version || Tagged(r.rows[j], v)))
    && (forall j :: |t.rows| <= j < |r.rows| ==> r.rows[j].fields.name.None? && Tagged(r.rows[j], v))
  }

  lemma MigrateRowExtends(t: CourseTable, row: Row, v: string)
    requires |row| >= Width && Valid(t) && AtMostOneName(t.rows, row[1])
    ensures Extends(t, MigrateRow(t, row, v), v)
  {
    var r := MigrateRow(t, row, v);
    if HasName(t.rows, row[1]) {
      var j :| 0 <= j < |t.rows| && t.rows[j].fields.name == Some(row[1]);
      assert r.rows == t.rows[j := Revised(t.rows[j], row[5], v)];
      assert Tagged(r.rows[j], v);
    } else {
      assert r.rows == t.rows + [Shell(t.nextId, row[5], v)];
      assert r.rows[|t.rows|] == Shell(t.nextId, row[5], v);
    }
  }

  lemma ExtendsTransitive(a: CourseTable, b: CourseTable, c: CourseTable, v: string)
    requires Extends(a, b, v) && Extends(b, c, v)
    ensures Extends(a, c, v)
  {
  }

  /** A step that keeps names and adds only rows without one stores the same names. */
  lemma HasNameCarries(t: CourseTable, r: CourseTable, v: string, name: string)
    requires Extends(t, r, v)
    ensures HasName(r.rows, name) <==> HasName(t.rows, name)
  {
    if HasName(r.rows, name) {
      var j :| 0 <= j < |r.rows| && r.rows[j].fields.name == Some(name);
      assert t.rows[j].fields.name == Some(name);
    }
    if HasName(t.rows, name) {
      var j :| 0 <= j < |t.rows| && t.rows[j].fields.name == Some(name);
      assert r.rows[j].fields.name == Some(name);
    }
  }

  /** Uniqueness of a name survives a step that keeps names. */
  lemma UniqueCarries(t: CourseTable, r: CourseTable, v: string, name: string)
    requires Extends(t, r, v) && AtMostOneName(t.rows, name)
    ensures AtMostOneName(r.rows, name)
    ensures HasName(r.rows, name) <==> HasName(t.rows, name)
  {
    HasNameCarries(t, r, v, name);
  }

  lemma KeysUniqueCarries(t: CourseTable, r: CourseTable, v: string, rows: seq<Row>)
    requires Wide(rows, Width) && KeysUnique(t, rows) && Extends(t, r, v)
    ensures KeysUnique(r, rows)
  {
    forall k | 0 <= k < |rows|
      ensures AtMostOneName(r.rows, rows[k][1])
    {
      UniqueCarries(t, r, v, rows[k][1]);
    }
  }

  /** The loop of migrate over the page rows, in order. */
  function MigrateRows(t: CourseTable, rows: seq<Row>, v: string): (r: CourseTable)
    requires Wide(rows, Width) && Valid(t) && KeysUnique(t, rows)
    ensures Valid(r) && Extends(t, r, v)
    decreases |rows|
  {
    if |rows| == 0 then t
    else
      var prefix := rows[..|rows| - 1];
      var t' := MigrateRows(t, prefix, v);
      var row := rows[|rows| - 1];
      UniqueCarries(t, t', v, row[1]);
      MigrateRowExtends(t', row, v);
      ExtendsTransitive(t, t', MigrateRow(t', row, v), v);
      MigrateRow(t', row, v)
  }

  /** The location the rows give the course with `name`: that of the last row carrying it. */
  function LastLocation(rows: seq<Row>, name: string): Option<string>
    requires Wide(rows, Width)
    decreases |rows|
  {
    if |rows| == 0 then None
    else if rows[|rows| - 1][1] == name then Some(rows[|rows| - 1][5])
    else LastLocation(rows[..|rows| - 1], name)
  }

  /** A stored course after the rows: revised by the last row with its name, else as it was. */
  function RevisedBy(c: Course, rows: seq<Row>, v: string): Course
    requires Wide(rows, Width)
  {
    match c.fields.name
    case None => c
    case Some(e) =>
      match LastLocation(rows, e)
      case None => c
      case Some(location) => Revised(c, location, v)
  }

  /** The rows saved for the rows whose name matches no stored course, in row order. */
  function Shells(t: CourseTable, rows: seq<Row>, v: string): seq<Course>
    requires Wide(rows, Width)
    decreases |rows|
  {
    if |rows| == 0 then []
    else
      var before := Shells(t, rows[..|rows| - 1], v);
      var row := rows[|rows| - 1];
      if HasName(t.rows, row[1]) then before else before + [Shell(t.nextId + |before|, row[5], v)]
  }

  /**
   * `r` is `t` after the rows: every stored course revised by the last row with its name (all
   * its other columns as they were), and one shell appended per row whose name matches no
   * stored course.
   */
  ghost predicate MigratedAs(t: CourseTable, rows: seq<Row>, v: string, r: CourseTable)
    requires Wide(rows, Width)
  {
    && |r.rows| == |t.rows| + |Shells(t, rows, v)|
    && (forall j :: 0 <= j < |t.rows| ==> r.rows[j] == RevisedBy(t.rows[j], rows, v))
    && r.rows[|t.rows|..] == Shells(t, rows, v)
    && r.nextId == t.nextId + |Shells(t, rows, v)|
  }

  lemma LastLocationOfLast(prefix: seq<Row>, row: Row, name: string)
    requires Wide(prefix, Width) && |row| >= Width
    ensures Wide(prefix + [row], Width)
    ensures LastLocation(prefix + [row], name)
            == if row[1] == name then Some(row[5]) else LastLocation(prefix, name)
  {
    assert (prefix + [row])[..|prefix|] == prefix;
  }

  lemma ShellsOfLast(t: CourseTable, prefix: seq<Row>, row: Row, v: string)
    requires Wide(prefix, Width) && |row| >= Width
    ensures Wide(prefix + [row], Width)
    ensures Shells(t, prefix + [row], v)
            == if HasName(t.rows, row[1]) then Shells(t, prefix, v)
               else Shells(t, prefix, v) + [Shell(t.nextId + |Shells(t, prefix, v)|, row[5], v)]
  {
    assert (prefix + [row])[..|prefix|] == prefix;
  }

  /** A course whose name is not the row's is left alone by the row. */
  lemma RevisedByOther(c: Course, prefix: seq<Row>, row: Row, v: string)
    requires Wide(prefix, Width) && |row| >= Width && c.fields.name != Some(row[1])
    ensures Wide(prefix + [row], Width)
    ensures RevisedBy(c, prefix + [row], v) == RevisedBy(c, prefix, v)
  {
    if c.fields.name.Some? {
      LastLocationOfLast(prefix, row, c.fields.name.value);
    }
  }

  /** The course with the row's name ends with the row's location and the version. */
  lemma RevisedBySame(c: Course, prefix: seq<Row>, row: Row, v: string)
    requires Wide(prefix, Width) && |row| >= Width && c.fields.name == Some(row[1])
    ensures Wide(prefix + [row], Width)
    ensures RevisedBy(c, prefix + [row], v) == Revised(RevisedBy(c, prefix, v), row[5], v)
  {
    LastLocationOfLast(prefix, row, row[1]);
  }

  lemma StepFound(t: CourseTable, t': CourseTable, prefix: seq<Row>, row: Row, v: string, j: nat)
    requires Wide(prefix, Width) && |row| >= Width
    requires j < |t.rows| && t.rows[j].fields.name == Some(row[1]) && AtMostOneName(t.rows, row[1])
    requires MigratedAs(t, prefix, v, t')
    ensures Wide(prefix + [row], Width)
    ensures MigratedAs(t, prefix + [row], v, Table(t'.rows[j := Revised(t'.rows[j], row[5], v)], t'.nextId))
  {
    var r := Table(t'.rows[j := Revised(t'.rows[j], row[5], v)], t'.nextId);
    ShellsOfLast(t, prefix, row, v);
    forall i | 0 <= i < |t.rows|
      ensures r.rows[i] == RevisedBy(t.rows[i], prefix + [row], v)
    {
      if i == j {
        RevisedBySame(t.rows[i], prefix, row, v);
      } else {
        RevisedByOther(t.rows[i], prefix, row, v);
      }
    }
    assert r.rows[|t.rows|..] == t'.rows[|t.rows|..];
  }

  lemma StepAbsent(t: CourseTable, t': CourseTable, prefix: seq<Row>, row: Row, v: string)
    requires Wide(prefix, Width) && |row| >= Width
    requires !HasName(t.rows, row[1])
    requires MigratedAs(t, prefix, v, t')
    ensures Wide(prefix + [row], Width)
    ensures MigratedAs(t, prefix + [row], v, Table(t'.rows + [Shell(t'.nextId, row[5], v)], t'.nextId + 1))
  {
    var r := Table(t'.rows + [Shell(t'.nextId, row[5], v)], t'.nextId + 1);
    ShellsOfLast(t, prefix, row, v);
    forall i | 0 <= i < |t.rows|
      ensures r.rows[i] == RevisedBy(t.rows[i], prefix + [row], v)
    {
      RevisedByOther(t.rows[i], prefix, row, v);
    }
    assert r.rows[|t.rows|..] == t'.rows[|t.rows|..] + [Shell(t'.nextId, row[5], v)];
  }

  /** The loop over the page rows ends exactly in the state MigratedAs describes. */
  lemma {:induction false} MigrateRowsOutcome(t: CourseTable, rows: seq<Row>, v: string)
    requires Wide(rows, Width) && Valid(t) && KeysUnique(t, rows)
    ensures MigratedAs(t, rows, v, MigrateRows(t, rows, v))
    decreases |rows|
  {
    if |rows| > 0 {
      var prefix := rows[..|rows| - 1];
      var row := rows[|rows| - 1];
      assert rows == prefix + [row];
      MigrateRowsOutcome(t, prefix, v);
      var t' := MigrateRows(t, prefix, v);
      UniqueCarries(t, t', v, row[1]);
      if HasName(t.rows, row[1]) {
        var j :| 0 <= j < |t.rows| && t.rows[j].fields.name == Some(row[1]);
        StepFound(t, t', prefix, row, v, j);
      } else {
        StepAbsent(t, t', prefix, row, v);
      }
    }
  }

  /** Every shell carries the version, a location, an id, and no other column. */
  lemma {:induction false} ShellsShape(t: CourseTable, rows: seq<Row>, v: string)
    requires Wide(rows, Width)
    ensures forall k :: 0 <= k < |Shells(t, rows, v)| ==>
              var s := Shells(t, rows, v)[k];
              s.id.Some? && Tagged(s, v) && s.fields.location.Some?
              && s.fields.(location := None) == NoCourseFields
    decreases |rows|
  {
    if |rows| > 0 {
      ShellsShape(t, rows[..|rows| - 1], v);
    }
  }

  /** Two tables that agree on which of the rows' names they hold get equally many shells. */
  lemma {:induction false} ShellsLength(t: CourseTable, t': CourseTable, rows: seq<Row>, v: string)
    requires Wide(rows, Width)
    requires forall k :: 0 <= k < |rows| ==> (HasName(t.rows, rows[k][1]) <==> HasName(t'.rows, rows[k][1]))
    ensures |Shells(t, rows, v)| == |Shells(t', rows, v)|
    decreases |rows|
  {
    if |rows| > 0 {
      ShellsLength(t, t', rows[..|rows| - 1], v);
    }
  }

  /** A row whose name no stored course has yields at least one shell. */
  lemma {:induction false} ShellsNonEmpty(t: CourseTable, rows: seq<Row>, v: string, k: nat)
    requires Wide(rows, Width) && k < |rows| && !HasName(t.rows, rows[k][1])
    ensures |Shells(t, rows, v)| > 0
    decreases |rows|
  {
    if k < |rows| - 1 {
      ShellsNonEmpty(t, rows[..|rows| - 1], v, k);
    }
  }

  /** Revising a second time by the same rows changes nothing more. */
  lemma RevisedByIdempotent(c: Course, rows: seq<Row>, v: string)
    requires Wide(rows, Width)
    ensures RevisedBy(RevisedBy(c, rows, v), rows, v) == RevisedBy(c, rows, v)
  {
  }

  /** migrate(page, size, version) */
  function Migrate(source: seq<Row>, t: CourseTable, page: nat, size: nat, v: string): (r: CourseTable)
    requires Wide(ReadPage(source, page, size), Width) && Valid(t)
    requires KeysUnique(t, ReadPage(source, page, size))
    ensures Valid(r) && Extends(t, r, v)
    ensures MigratedAs(t, ReadPage(source, page, size), v, r)
  {
    MigrateRowsOutcome(t, ReadPage(source, page, size), v);
    MigrateRows(t, ReadPage(source, page, size), v)
  }

  /** getSize */
  function Size(source: seq<Row>): (n: nat)
    ensures n == |source|
  {
    Pages.Size(CountQuery(source))
  }

  /**
   * rollback(version): first null the location of every row tagged with the version,
   * then retag those rows "1.0.0"; rows with any other tag are left alone.
   */
  function Rollback(t: CourseTable, v: string): (r: CourseTable)
    ensures r.nextId == t.nextId && |r.rows| == |t.rows|
    ensures Valid(t) ==> Valid(r)
    ensures forall i :: 0 <= i < |t.rows| ==>
              r.rows[i] == if Tagged(t.rows[i], v)
                           then t.rows[i].(version := Some(PreviousVersion),
                                           fields := t.rows[i].fields.(location := None))
                           else t.rows[i]
    ensures v != PreviousVersion ==> forall i :: 0 <= i < |r.rows| ==> !Tagged(r.rows[i], v)
  {
    ResetVersion(ResetLocation(t, v), v, PreviousVersion)
  }

  /**
   * The order of the two statements matters: retagging first would leave the locations
   * in place, since no row would be tagged with the version any more.
   */
  lemma RetagFirstKeepsLocations(t: CourseTable, v: string, i: nat)
    requires v != PreviousVersion && i < |t.rows| && Tagged(t.rows[i], v)
    ensures ResetLocation(ResetVersion(t, v, PreviousVersion), v).rows[i].fields.location
            == t.rows[i].fields.location
  {
  }

  /**
   * Round trip: over courses that are all at "1.0.0" without location, migrating a page and
   * rolling the version back restores every stored course exactly; what remains are the shells,
   * now at "1.0.0" with every column empty.
   */
  lemma RollbackUndoesMigrate(source: seq<Row>, t: CourseTable, page: nat, size: nat, v: string)
    requires Wide(ReadPage(source, page, size), Width) && Valid(t)
    requires KeysUnique(t, ReadPage(source, page, size))
    requires forall i :: 0 <= i < |t.rows| ==>
               Tagged(t.rows[i], PreviousVersion) && t.rows[i].fields.location.None?
    ensures var r := Rollback(Migrate(source, t, page, size, v), v);
            && |r.rows| >= |t.rows|
            && r.rows[..|t.rows|] == t.rows
            && forall j :: |t.rows| <= j < |r.rows| ==>
                 r.rows[j].id.Some? && r.rows[j].version == Some(PreviousVersion) && r.rows[j].fields == NoCourseFields
  {
    var rows := ReadPage(source, page, size);
    var m := Migrate(source, t, page, size, v);
    var r := Rollback(m, v);
    ShellsShape(t, rows, v);
    forall j | 0 <= j < |t.rows|
      ensures r.rows[j] == t.rows[j]
    {
      assert m.rows[j] == RevisedBy(t.rows[j], rows, v);
    }
    forall j | |t.rows| <= j < |r.rows|
      ensures r.rows[j].id.Some? && r.rows[j].version == Some(PreviousVersion) && r.rows[j].fields == NoCourseFields
    {
      assert m.rows[j] == Shells(t, rows, v)[j - |t.rows|];
    }
  }

  /**
   * Re-running a page over the state it produced leaves every row already there as it is
   * (the revision of a found course is idempotent), but appends another shell for each row
   * whose name matched no course, because shells never receive the name.
   */
  lemma RerunPage(source: seq<Row>, t: CourseTable, page: nat, size: nat, v: string)
    requires Wide(ReadPage(source, page, size), Width) && Valid(t)
    requires KeysUnique(t, ReadPage(source, page, size))
    ensures var r1 := Migrate(source, t, page, size, v);
            Valid(r1) && KeysUnique(r1, ReadPage(source, page, size))
    ensures var r1 := Migrate(source, t, page, size, v);
            var r2 := Migrate(source, r1, page, size, v);
            && |r2.rows| >= |r1.rows|
            && r2.rows[..|r1.rows|] == r1.rows
            && |r2.rows| - |r1.rows| == |r1.rows| - |t.rows|
            && ((exists k :: 0 <= k < |ReadPage(source, page, size)| &&
                            !HasName(t.rows, ReadPage(source, page, size)[k][1]))
                ==> |r2.rows| > |r1.rows|)
  {
    var rows := ReadPage(source, page, size);
    var r1 := Migrate(source, t, page, size, v);
    KeysUniqueCarries(t, r1, v, rows);
    var r2 := Migrate(source, r1, page, size, v);
    forall j | 0 <= j < |r1.rows|
      ensures r2.rows[j] == r1.rows[j]
    {
      if j < |t.rows| {
        RevisedByIdempotent(t.rows[j], rows, v);
      } else {
        assert r1.rows[j].fields.name.None?;
      }
    }
    forall k | 0 <= k < |rows|
      ensures HasName(t.rows, rows[k][1]) <==> HasName(r1.rows, rows[k][1])
    {
      UniqueCarries(t, r1, v, rows[k][1]);
    }
    ShellsLength(t, r1, rows, v);
    if exists k :: 0 <= k < |rows| && !HasName(t.rows, rows[k][1]) {
      var k :| 0 <= k < |rows| && !HasName(t.rows, rows[k][1]);
      ShellsNonEmpty(t, rows, v, k);
    }
  }

  /** The page's names are among the source's, so uniqueness over the source covers the page. */
  lemma PageKeysUnique(t: CourseTable, source: seq<Row>, page: nat, size: nat)
    requires Wide(source, Width) && KeysUnique(t, source)
    ensures Wide(ReadPage(source, page, size), Width)
    ensures KeysUnique(t, ReadPage(source, page, size))
  {
    PageWide(source, page, size, Width);
  }

  /** Every row is tagged either `w` or `v`. */
  predicate TaggedEither(t: CourseTable, w: string, v: string)
  {
    forall i :: 0 <= i < |t.rows| ==> Tagged(t.rows[i], w) || Tagged(t.rows[i], v)
  }

  /** A run keeps every row tagged with the earlier tag `w` or with its own version. */
  lemma ExtendsKeepsTags(t: CourseTable, r: CourseTable, v: string, w: string)
    requires Extends(t, r, v) && TaggedEither(t, w, v)
    ensures TaggedEither(r, w, v)
  {
  }

  /** Every name the rows carry is already stored. */
  predicate AllKeysStored(t: CourseTable, rows: seq<Row>)
    requires Wide(rows, Width)
  {
    forall k :: 0 <= k < |rows| ==> HasName(t.rows, rows[k][1])
  }

  /** The state version 1.0.0 leaves: every row at "1.0.0" and without location. */
  predicate AtPrevious(t: CourseTable) {
    forall i :: 0 <= i < |t.rows| ==> Tagged(t.rows[i], PreviousVersion) && t.rows[i].fields.location.None?
  }

  /** When every name of the rows is stored, no shell is created. */
  lemma {:induction false} NoShellsWhenAllStored(t: CourseTable, rows: seq<Row>, v: string)
    requires Wide(rows, Width) && AllKeysStored(t, rows)
    ensures Shells(t, rows, v) == []
    decreases |rows|
  {
    if |rows| > 0 {
      var prefix := rows[..|rows| - 1];
      assert forall k :: 0 <= k < |prefix| ==> prefix[k] == rows[k];
      NoShellsWhenAllStored(t, prefix, v);
      assert HasName(t.rows, rows[|rows| - 1][1]);
    }
  }

  /** Rolling back undoes a revision of every row when no shell was added. */
  lemma RollbackRevised(t: CourseTable, m: CourseTable, r: CourseTable, rows: seq<Row>, v: string)
    requires Wide(rows, Width) && v != PreviousVersion && AtPrevious(t) && Rollback(m, v) == t
    requires |r.rows| == |m.rows| && r.nextId == m.nextId
    requires forall j :: 0 <= j < |m.rows| ==> r.rows[j] == RevisedBy(m.rows[j], rows, v)
    ensures Rollback(r, v) == t
  {
    var back := Rollback(r, v);
    forall j | 0 <= j < |back.rows|
      ensures back.rows[j] == t.rows[j]
    {
      assert Rollback(m, v).rows[j] == t.rows[j];
    }
  }

  /** A table at "1.0.0" holds no row tagged with a later version, so rollback leaves it as it is. */
  lemma RollbackAtPrevious(t: CourseTable, v: string)
    requires v != PreviousVersion && AtPrevious(t)
    ensures Rollback(t, v) == t
  {
    assert Rollback(t, v).rows == t.rows;
  }

  /**
   * A run over rows whose every name version 1.0.0 already stored, over courses all at
   * "1.0.0" without location, is undone by rolling the version back: no shell was added,
   * and every revised course returns to "1.0.0" without location.
   */
  lemma RollbackUndoesRun(t: CourseTable, r: CourseTable, rows: seq<Row>, v: string)
    requires Wide(rows, Width) && MigratedAs(t, rows, v, r)
    requires AllKeysStored(t, rows) && v != PreviousVersion && AtPrevious(t)
    ensures Rollback(r, v) == t
  {
    NoShellsWhenAllStored(t, rows, v);
    RollbackAtPrevious(t, v);
    RollbackRevised(t, t, r, rows, v);
  }

  /** Two row sequences read one after the other: the later one's location for a name wins. */
  lemma {:induction false} LastLocationAppend(p1: seq<Row>, p2: seq<Row>, name: string)
    requires Wide(p1, Width) && Wide(p2, Width)
    ensures Wide(p1 + p2, Width)
    ensures LastLocation(p1 + p2, name)
            == if LastLocation(p2, name).Some? then LastLocation(p2, name) else LastLocation(p1, name)
    decreases |p2|
  {
    WideAppend(p1, p2, Width);
    if |p2| == 0 {
      assert p1 + p2 == p1;
    } else {
      var q := p2[..|p2| - 1];
      var row := p2[|p2| - 1];
      assert p2 == q + [row];
      assert p1 + p2 == (p1 + q) + [row];
      LastLocationAppend(p1, q, name);
      LastLocationOfLast(p1 + q, row, name);
      LastLocationOfLast(q, row, name);
    }
  }

  /** Revising by two row sequences one after the other is revising by both at once. */
  lemma RevisedByAppend(c: Course, p1: seq<Row>, p2: seq<Row>, v: string)
    requires Wide(p1, Width) && Wide(p2, Width)
    ensures Wide(p1 + p2, Width)
    ensures RevisedBy(RevisedBy(c, p1, v), p2, v) == RevisedBy(c, p1 + p2, v)
  {
    WideAppend(p1, p2, Width);
    if c.fields.name.Some? {
      LastLocationAppend(p1, p2, c.fields.name.value);
    }
  }

  /**
   * The rows saved for unmatched names of two row sequences, the second looked up in the
   * table the first left behind, which stores the same names.
   */
  lemma {:induction false} ShellsAppend(t: CourseTable, m: CourseTable, p1: seq<Row>, p2: seq<Row>, v: string)
    requires Wide(p1, Width) && Wide(p2, Width)
    requires Extends(t, m, v) && m.nextId == t.nextId + |Shells(t, p1, v)|
    ensures Wide(p1 + p2, Width)
    ensures Shells(t, p1 + p2, v) == Shells(t, p1, v) + Shells(m, p2, v)
    decreases |p2|
  {
    WideAppend(p1, p2, Width);
    if |p2| == 0 {
      assert p1 + p2 == p1;
    } else {
      var q := p2[..|p2| - 1];
      var row := p2[|p2| - 1];
      assert (p1 + p2)[..|p1 + p2| - 1] == p1 + q;
      assert (p1 + p2)[|p1 + p2| - 1] == row;
      ShellsAppend(t, m, p1, q, v);
      HasNameCarries(t, m, v, row[1]);
      var a := Shells(t, p1, v);
      var b := Shells(m, q, v);
      if !HasName(t.rows, row[1]) {
        var x := Shell(m.nextId + |b|, row[5], v);
        assert Shells(t, p1 + p2, v) == (a + b) + [x];
        assert (a + b) + [x] == a + (b + [x]);
      }
    }
  }

  /** Saved rows hold no name, so a later run leaves them as they are and appends its own. */
  lemma ShellsUntouched(t: CourseTable, m: CourseTable, r: CourseTable, p1: seq<Row>, p2: seq<Row>, v: string)
    requires Wide(p1, Width) && Wide(p2, Width)
    requires MigratedAs(t, p1, v, m) && MigratedAs(m, p2, v, r) && Extends(t, m, v)
    ensures r.rows[|t.rows|..] == Shells(t, p1, v) + Shells(m, p2, v)
  {
    assert r.rows[|t.rows|..|m.rows|] == m.rows[|t.rows|..];
    assert r.rows[|t.rows|..] == r.rows[|t.rows|..|m.rows|] + r.rows[|m.rows|..];
  }

  /** Rows stored before both runs are revised by the two row sequences as by one. */
  lemma RevisedTwice(t: CourseTable, m: CourseTable, r: CourseTable, p1: seq<Row>, p2: seq<Row>, v: string)
    requires Wide(p1, Width) && Wide(p2, Width)
    requires MigratedAs(t, p1, v, m) && MigratedAs(m, p2, v, r)
    ensures Wide(p1 + p2, Width)
    ensures forall j :: 0 <= j < |t.rows| ==> r.rows[j] == RevisedBy(t.rows[j], p1 + p2, v)
  {
    WideAppend(p1, p2, Width);
    forall j | 0 <= j < |t.rows|
      ensures r.rows[j] == RevisedBy(t.rows[j], p1 + p2, v)
    {
      RevisedByAppend(t.rows[j], p1, p2, v);
    }
  }

  /** Two runs of the loop, the second over the table the first produced, are one run over both. */
  lemma MigratedAsAppend(t: CourseTable, m: CourseTable, r: CourseTable, p1: seq<Row>, p2: seq<Row>, v: string)
    requires Wide(p1, Width) && Wide(p2, Width)
    requires MigratedAs(t, p1, v, m) && MigratedAs(m, p2, v, r) && Extends(t, m, v)
    ensures Wide(p1 + p2, Width)
    ensures MigratedAs(t, p1 + p2, v, r)
  {
    RevisedTwice(t, m, r, p1, p2, v);
    ShellsAppend(t, m, p1, p2, v);
    ShellsUntouched(t, m, r, p1, p2, v);
  }

  /** One more page, run over the outcome of the pages before it, gives the outcome of them all. */
  lemma PageOutcome(source: seq<Row>, t: CourseTable, m: CourseTable, r: CourseTable, page: nat, size: nat, v: string)
    requires Wide(source, Width) && Extends(t, m, v)
    requires Wide(ReadPages(source, size, page), Width) && MigratedAs(t, ReadPages(source, size, page), v, m)
    requires Wide(ReadPage(source, page, size), Width) && MigratedAs(m, ReadPage(source, page, size), v, r)
    ensures Wide(ReadPages(source, size, page + 1), Width) && MigratedAs(t, ReadPages(source, size, page + 1), v, r)
  {
    assert ReadPages(source, size, page + 1) == ReadPages(source, size, page) + ReadPage(source, page, size);
    MigratedAsAppend(t, m, r, ReadPages(source, size, page), ReadPage(source, page, size), v);
  }

  /** Before any page, the table is the loop's outcome over no rows. */
  lemma MigratedAsNothing(t: CourseTable, v: string)
    ensures MigratedAs(t, [], v, t)
  {
    assert t.rows[|t.rows|..] == [];
  }

  /** Pages enough to cover the source: their outcome is the outcome over the whole source. */
  lemma CoveringPagesOutcome(source: seq<Row>, t: CourseTable, r: CourseTable, size: nat, count: nat, v: string)
    requires Wide(source, Width)
    requires Wide(ReadPages(source, size, count), Width) && MigratedAs(t, ReadPages(source, size, count), v, r)
    ensures size >= 1 && count == PageCount(|source|, size) ==> MigratedAs(t, source, v, r)
  {
    if size >= 1 && count == PageCount(|source|, size) {
      PaginationComplete(source, size);
    }
  }

  /** One iteration of the assumed driver loop: page `page` migrated after the pages before it. */
  method MigrateNextPage(source: seq<Row>, t: CourseTable, m: CourseTable, page: nat, size: nat, v: string)
      returns (r: CourseTable)
    requires Wide(source, Width) && Valid(m) && KeysUnique(m, source) && Extends(t, m, v)
    requires Wide(ReadPages(source, size, page), Width) && MigratedAs(t, ReadPages(source, size, page), v, m)
    ensures Valid(r) && KeysUnique(r, source) && Extends(t, r, v)
    ensures Wide(ReadPages(source, size, page + 1), Width) && MigratedAs(t, ReadPages(source, size, page + 1), v, r)
  {
    PageKeysUnique(m, source, page, size);
    r := Migrate(source, m, page, size, v);
    PageOutcome(source, t, m, r, page, size, v);
    ExtendsTransitive(t, m, r, v);
    KeysUniqueCarries(t, r, v, source);
  }

  /**
   * The driver loop this model assumes: pages 0 .. count - 1 migrated in order. The outcome
   * is that of the loop of migrate over all their rows at once: every stored course revised by
   * the last row with its name, one shell per row whose name no course carries. With as many
   * pages as cover the source, that is the outcome over the whole source. Each name of the
   * source keeps matching at most one course, and the table is only ever extended.
   */
  method MigratePages(source: seq<Row>, t: CourseTable, size: nat, count: nat, v: string) returns (r: CourseTable)
    requires Wide(source, Width) && Valid(t) && KeysUnique(t, source)
    ensures Valid(r) && KeysUnique(r, source) && Extends(t, r, v)
    ensures Wide(ReadPages(source, size, count), Width) && MigratedAs(t, ReadPages(source, size, count), v, r)
    ensures size >= 1 && count == PageCount(|source|, size) ==> MigratedAs(t, source, v, r)
  {
    r := t;
    MigratedAsNothing(t, v);
    var page := 0;
    while page < count
      invariant page <= count
      invariant Valid(r) && KeysUnique(r, source) && Extends(t, r, v)
      invariant Wide(ReadPages(source, size, page), Width) && MigratedAs(t, ReadPages(source, size, page), v, r)
    {
      r := MigrateNextPage(source, t, r, page, size, v);
      page := page + 1;
    }
    CoveringPagesOutcome(source, t, r, size, count, v);
  }
}
