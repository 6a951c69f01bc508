/**
 * CourseJob of version 1.0.0, a creator job: every legacy `course` row of the page becomes a
 * new `course` row whose name is column 1, tagged with the run's version and inserted
 * without any existence check. Rollback deletes by tag.
 */
module CourseJobV1_0_0 {
  import opened Wrappers
  import opened Pages
  import opened Store
  import opened Domain
  import opened CourseRepository

  /** Declared descriptor: version "1.0.0", order 2. */
  const Version := "1.0.0"
  const Order := 2

  /** Columns 0 .. 1 of a legacy course row are read. */
  const Width := 2

  /** The `course` row that a legacy course row becomes when saved with identity value `id`. */
  function Created(row: Row, v: string, id: nat): Course
    requires |row| >= Width
  {
    Record(Some(id), Some(v), NoCourseFields.(name := Some(row[1])))
  }

  /** The rows created from `rows`, saved with consecutive identity values from `firstId`. */
  function CreatedRows(rows: seq<Row>, v: string, firstId: nat): (r: seq<Course>)
    requires Wide(rows, Width)
    ensures |r| == |rows|
    ensures forall i :: 0 <= i < |rows| ==> r[i] == Created(rows[i], v, firstId + i)
    decreases |rows|
  {
    if |rows| == 0 then []
    else [Created(rows[0], v, firstId)] + CreatedRows(rows[1..], v, firstId + 1)
  }

  /** The builder setters of one loop iteration; the builder is shared by all iterations. */
  function Fill(b: Course, row: Row, v: string): Course
    requires |row| >= Width
  {
    b.(version := Some(v), fields := b.fields.(name := Some(row[1])))
  }

  /** The loop of migrate: fill the shared builder from the row, build, save. */
  function MigrateRows(t: CourseTable, b: Course, rows: seq<Row>, v: string): (r: CourseTable)
    requires Wide(rows, Width) && b.id.None?
    decreases |rows|
  {
    if |rows| == 0 then t
    else
      var b' := Fill(b, rows[0], v);
      MigrateRows(Save(t, b'), b', rows[1..], v)
  }

  /**
   * Whatever the builder held before, as long as it never had an id, a date, a time or a
   * location set, each saved course depends on its own row only: the loop appends exactly one
   * created row per source row.
   */
  lemma {:induction false} MigrateRowsAppends(t: CourseTable, b: Course, rows: seq<Row>, v: string)
    requires Wide(rows, Width)
    requires b.id.None? && b.fields.date.None? && b.fields.time.None? && b.fields.location.None?
    ensures MigrateRows(t, b, rows, v) == Table(t.rows + CreatedRows(rows, v, t.nextId), t.nextId + |rows|)
    decreases |rows|
  {
    if |rows| > 0 {
      var b' := Fill(b, rows[0], v);
      var t' := Save(t, b');
      assert t' == Table(t.rows + [Created(rows[0], v, t.nextId)], t.nextId + 1);
      MigrateRowsAppends(t', b', rows[1..], v);
      assert t.rows + CreatedRows(rows, v, t.nextId)
          == t'.rows + CreatedRows(rows[1..], v, t'.nextId);
    }
  }

  /** migrate(page, size, version) */
  function Migrate(source: seq<Row>, t: CourseTable, page: nat, size: nat, v: string): (r: CourseTable)
    requires Wide(ReadPage(source, page, size), Width)
    ensures r.rows == t.rows + CreatedRows(ReadPage(source, page, size), v, t.nextId)
    ensures r.nextId == t.nextId + |ReadPage(source, page, size)|
    ensures |r.rows| <= |t.rows| + size
    ensures Valid(t) ==> Valid(r)
  {
    var rows := ReadPage(source, page, size);
    MigrateRowsAppends(t, NewCourse, rows, v);
    AppendFreshKeepsValid(t, CreatedRows(rows, v, t.nextId));
    MigrateRows(t, NewCourse, rows, v)
  }

  /** getSize */
  function Size(source: seq<Row>): (n: nat)
    ensures n == |source|
  {
    Pages.Size(CountQuery(source))
  }

  /** rollback(version): delete every row tagged with the version */
  function Rollback(t: CourseTable, v: string): (r: CourseTable)
    ensures r.nextId == t.nextId
    ensures Valid(t) ==> Valid(r)
    ensures forall i :: 0 <= i < |r.rows| ==> !Tagged(r.rows[i], v)
    ensures forall c :: multiset(r.rows)[c] == if Tagged(c, v) then 0 else multiset(t.rows)[c]
  {
    DeleteCoursesByVersion(t, v)
  }

  /** Running the same page twice inserts every course of the page a second time. */
  lemma RerunDuplicates(source: seq<Row>, t: CourseTable, page: nat, size: nat, v: string)
    requires Wide(ReadPage(source, page, size), Width)
    ensures var n := |ReadPage(source, page, size)|;
            var r := Migrate(source, Migrate(source, t, page, size, v), page, size, v);
            && |r.rows| == |t.rows| + 2 * n
            && forall i :: |t.rows| + n <= i < |r.rows| ==>
                 r.rows[i].fields == r.rows[i - n].fields && r.rows[i].version == r.rows[i - n].version
  {
    var rows := ReadPage(source, page, size);
    var n := |rows|;
    var m := Migrate(source, t, page, size, v);
    var r := Migrate(source, m, page, size, v);
    forall i | |t.rows| + n <= i < |r.rows|
      ensures r.rows[i].fields == r.rows[i - n].fields && r.rows[i].version == r.rows[i - n].version
    {
      var k := i - |t.rows| - n;
      assert r.rows[i] == CreatedRows(rows, v, m.nextId)[k];
      assert r.rows[i - n] == CreatedRows(rows, v, t.nextId)[k];
    }
  }

  /** Rolling back a version that no earlier row carries removes exactly what migrate added. */
  lemma RollbackUndoesMigrate(source: seq<Row>, t: CourseTable, page: nat, size: nat, v: string)
    requires Wide(ReadPage(source, page, size), Width)
    requires forall i :: 0 <= i < |t.rows| ==> !Tagged(t.rows[i], v)
    ensures Rollback(Migrate(source, t, page, size, v), v).rows == t.rows
  {
    UntaggedRemovesAppended(t.rows, CreatedRows(ReadPage(source, page, size), v, t.nextId), v);
  }

  /** Rolling back twice removes no more than rolling back once. */
  lemma RollbackIdempotent(t: CourseTable, v: string)
    ensures Rollback(Rollback(t, v), v) == Rollback(t, v)
  {
    UntaggedKeepsAll(Untagged(t.rows, v), v);
  }

  /** Pages 0 .. count - 1 migrated one after the other: the driver this model assumes. */
  function MigratePages(source: seq<Row>, t: CourseTable, size: nat, count: nat, v: string): (r: CourseTable)
    requires Wide(source, Width)
    decreases count
  {
    if count == 0 then t
    else Migrate(source, MigratePages(source, t, size, count - 1, v), count - 1, size, v)
  }

  /** Created rows of two consecutive runs are those of one run over both row sequences. */
  lemma CreatedRowsAppend(rows: seq<Course>, a: seq<Row>, b: seq<Row>, v: string, firstId: nat)
    requires Wide(a, Width) && Wide(b, Width)
    ensures Wide(a + b, Width)
    ensures rows + CreatedRows(a + b, v, firstId)
         == (rows + CreatedRows(a, v, firstId)) + CreatedRows(b, v, firstId + |a|)
  {
    WideAppend(a, b, Width);
    var whole := CreatedRows(a + b, v, firstId);
    var parts := CreatedRows(a, v, firstId) + CreatedRows(b, v, firstId + |a|);
    assert |whole| == |parts|;
    forall i | 0 <= i < |whole|
      ensures whole[i] == parts[i]
    {
      if i < |a| {
        assert (a + b)[i] == a[i];
      } else {
        assert (a + b)[i] == b[i - |a|];
      }
    }
    assert whole == parts;
  }

  /** One more page appended to the rows created by the earlier pages. */
  lemma AppendPage(t: CourseTable, m: CourseTable, r: CourseTable, before: seq<Row>, page: seq<Row>, v: string)
    requires Wide(before, Width) && Wide(page, Width)
    requires m == Table(t.rows + CreatedRows(before, v, t.nextId), t.nextId + |before|)
    requires r.rows == m.rows + CreatedRows(page, v, m.nextId) && r.nextId == m.nextId + |page|
    ensures Wide(before + page, Width)
    ensures r == Table(t.rows + CreatedRows(before + page, v, t.nextId), t.nextId + |before + page|)
  {
    CreatedRowsAppend(t.rows, before, page, v, t.nextId);
  }

  /** Page `count - 1` on top of the earlier pages, unfolded once. */
  lemma MigratePagesStep(source: seq<Row>, t: CourseTable, size: nat, count: nat, v: string)
    requires Wide(source, Width) && count > 0
    ensures Wide(ReadPages(source, size, count - 1), Width) && Wide(ReadPage(source, count - 1, size), Width)
    ensures MigratePages(source, t, size, count, v).rows
         == MigratePages(source, t, size, count - 1, v).rows
            + CreatedRows(ReadPage(source, count - 1, size), v, MigratePages(source, t, size, count - 1, v).nextId)
    ensures MigratePages(source, t, size, count, v).nextId
         == MigratePages(source, t, size, count - 1, v).nextId + |ReadPage(source, count - 1, size)|
    ensures ReadPages(source, size, count) == ReadPages(source, size, count - 1) + ReadPage(source, count - 1, size)
  {
    PagesWide(source, size, count - 1, Width);
    PageWide(source, count - 1, size, Width);
  }

  lemma MigratePagesAppends(source: seq<Row>, t: CourseTable, size: nat, count: nat, v: string)
    requires Wide(source, Width)
    ensures Wide(ReadPages(source, size, count), Width)
    ensures MigratePages(source, t, size, count, v)
         == Table(t.rows + CreatedRows(ReadPages(source, size, count), v, t.nextId),
                  t.nextId + |ReadPages(source, size, count)|)
  {
    PagesWide(source, size, count, Width);
    if count > 0 {
      MigratePagesAppends(source, t, size, count - 1, v);
      MigratePagesStep(source, t, size, count, v);
      AppendPage(t, MigratePages(source, t, size, count - 1, v), MigratePages(source, t, size, count, v),
                 ReadPages(source, size, count - 1), ReadPage(source, count - 1, size), v);
    }
  }

  /**
   * The whole source migrated page by page, with as many pages as getSize calls for: every
   * legacy row becomes exactly one course row, in source order, none twice and none missing.
   */
  lemma MigrateAllCreatesEachRowOnce(source: seq<Row>, t: CourseTable, size: nat, v: string)
    requires Wide(source, Width) && size >= 1
    ensures MigratePages(source, t, size, PageCount(Size(source), size), v)
         == Table(t.rows + CreatedRows(source, v, t.nextId), t.nextId + |source|)
  {
    MigratePagesAppends(source, t, size, PageCount(Size(source), size), v);
    PaginationComplete(source, size);
  }
}
