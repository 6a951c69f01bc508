/** CourseRepository: the bulk statements and the name lookup the course jobs use on `course`. */
module CourseRepository {
  import opened Wrappers
  import opened Store
  import opened Domain

  type CourseTable = Table<CourseFields>

  predicate HasName(rows: seq<Course>, name: string) {
    exists i :: 0 <= i < |rows| && rows[i].fields.name == Some(name)
  }

  /** At most one row carries `name`: the condition under which findByName may return an Optional. */
  predicate AtMostOneName(rows: seq<Course>, name: string) {
    forall i, j ::
      (0 <= i < |rows| && 0 <= j < |rows| &&
       rows[i].fields.name == Some(name) && rows[j].fields.name == Some(name)) ==> i == j
  }

  /** findByName: the one row whose name is `name`, or none. */
  function FindByName(t: CourseTable, name: string): (r: Option<Course>)
    requires AtMostOneName(t.rows, name)
    ensures r.None? <==> !HasName(t.rows, name)
    ensures forall i :: 0 <= i < |t.rows| && t.rows[i].fields.name == Some(name) ==> r == Some(t.rows[i])
  {
    match FindFirst(t.rows, (c: Course) => c.fields.name == Some(name))
    case Some(i) => Some(t.rows[i])
    case None => None
  }

  /** `DELETE FROM course WHERE version = :version` */
  function DeleteCoursesByVersion(t: CourseTable, v: string): (r: CourseTable)
    ensures r.nextId == t.nextId
    ensures Valid(t) ==> Valid(r)
    ensures forall c :: multiset(r.rows)[c] == if Tagged(c, v) then 0 else multiset(t.rows)[c]
  {
    UntaggedMultiset(t.rows, v);
    UntaggedKeepsValid(t, v);
    t.(rows := Untagged(t.rows, v))
  }

  /** `UPDATE course SET location = NULL WHERE version = :version` */
  function ResetLocation(t: CourseTable, v: string): (r: CourseTable)
    ensures r.nextId == t.nextId && |r.rows| == |t.rows|
    ensures Valid(t) ==> Valid(r)
    ensures forall i :: 0 <= i < |t.rows| ==>
              r.rows[i].fields.location == if Tagged(t.rows[i], v) then None else t.rows[i].fields.location
    ensures forall i :: 0 <= i < |t.rows| ==>
              r.rows[i] == t.rows[i].(fields := t.rows[i].fields.(location := r.rows[i].fields.location))
  {
    t.(rows := UpdateTagged(t.rows, v, (c: Course) => c.(fields := c.fields.(location := None))))
  }

  /** `UPDATE course SET version = :newVersion WHERE version = :oldVersion` */
  function ResetVersion(t: CourseTable, oldVersion: string, newVersion: string): (r: CourseTable)
    ensures r.nextId == t.nextId && |r.rows| == |t.rows|
    ensures Valid(t) ==> Valid(r)
    ensures forall i :: 0 <= i < |t.rows| ==>
              r.rows[i].version == if Tagged(t.rows[i], oldVersion) then Some(newVersion) else t.rows[i].version
    ensures forall i :: 0 <= i < |t.rows| ==> r.rows[i] == t.rows[i].(version := r.rows[i].version)
    ensures oldVersion != newVersion ==> forall i :: 0 <= i < |r.rows| ==> !Tagged(r.rows[i], oldVersion)
  {
    t.(rows := UpdateTagged(t.rows, oldVersion, (c: Course) => c.(version := Some(newVersion))))
  }

  /** Once every row tagged v has been retagged to another version, deleting by v removes nothing. */
  lemma RetagThenDeleteIsNoOp(t: CourseTable, v: string, w: string)
    requires v != w
    ensures DeleteCoursesByVersion(ResetVersion(t, v, w), v) == ResetVersion(t, v, w)
  {
    UntaggedKeepsAll(ResetVersion(t, v, w).rows, v);
  }
}
