/**
 * UserJob of version 1.1.0, a reviser job: for every legacy `user` row of the page it looks up
 * the `users` row with the row's e-mail (column 8). A found row gets the phone number of
 * column 3 and the run's version; otherwise a new row is saved that holds only that phone
 * number and the version. The new row's e-mail stays empty, so a later lookup never finds it.
 * Rollback nulls the phone number of the rows tagged with the version, then retags them "1.0.0".
 */
module UserJobV1_1_0 {
  import opened Wrappers
  import opened Pages
  import opened Store
  import opened Domain
  import opened UserRepository

  /** Declared descriptor: version "1.1.0", no explicit order. */
  const Version := "1.1.0"

  /** The version rollback retags to, whatever version it is asked to roll back. */
  const PreviousVersion := "1.0.0"

  /** Columns 0 .. 8 of a legacy user row are read. */
  const Width := 9

  /** Every e-mail the rows look up matches at most one stored user. */
  predicate KeysUnique(t: UserTable, rows: seq<Row>)
    requires Wide(rows, Width)
  {
    forall k :: 0 <= k < |rows| ==> AtMostOneEmail(t.rows, rows[k][8])
  }

  /** A user after the loop body's two setters. */
  function Revised(u: Users, phone: string, v: string): Users {
    u.(version := Some(v), fields := u.fields.(phoneNumber := Some(phone)))
  }

  /** The row saved for an e-mail that matches no user: a `new Users()` with phone and version only. */
  function Shell(id: nat, phone: string, v: string): Users {
    Record(Some(id), Some(v), NoUserFields.(phoneNumber := Some(phone)))
  }

  /** Saving the revised copy of the user found by e-mail rewrites that user's row only. */
  lemma SaveFound(t: UserTable, row: Row, v: string)
    requires |row| >= Width && Valid(t) && AtMostOneEmail(t.rows, row[8])
    ensures forall j :: 0 <= j < |t.rows| && t.rows[j].fields.email == Some(row[8]) ==>
              Save(t, Revised(FindByEmail(t, row[8]).GetOr(NewUsers), row[3], v))
              == Table(t.rows[j := Revised(t.rows[j], row[3], v)], t.nextId)
  {
    forall j | 0 <= j < |t.rows| && t.rows[j].fields.email == Some(row[8]) {
      SaveReplacesRow(t, j, Revised(t.rows[j], row[3], v));
    }
  }

  /** One iteration of the loop of migrate: find by e-mail or else `new Users()`, set, save. */
  function MigrateRow(t: UserTable, row: Row, v: string): (r: UserTable)
    requires |row| >= Width && Valid(t) && AtMostOneEmail(t.rows, row[8])
    ensures Valid(r)
    ensures forall j :: 0 <= j < |t.rows| && t.rows[j].fields.email == Some(row[8]) ==>
              r == Table(t.rows[j := Revised(t.rows[j], row[3], v)], t.nextId)
    ensures !HasEmail(t.rows, row[8]) ==> r == Table(t.rows + [Shell(t.nextId, row[3], v)], t.nextId + 1)
  {
    var user := FindByEmail(t, row[8]).GetOr(NewUsers);
    SaveFound(t, row, v);
    Save(t, Revised(user, row[3], v))
  }

  /**
   * A step of a run with version `v`: every stored e-mail stays in place, a stored row keeps
   * its tag or takes `v`, and the rows added have no e-mail and are tagged `v`.
   */
  ghost predicate Extends(t: UserTable, r: UserTable, v: string) {
    && |r.rows| >= |t.rows|
    && (forall j :: 0 <= j < |t.rows| ==>
          r.rows[j].fields.email == t.rows[j].fields.email
          && (r.rows[j].version == t.rows[j].version || Tagged(r.rows[j], v)))
    && (forall j :: |t.rows| <= j < |r.rows| ==> r.rows[j].fields.email.None? && Tagged(r.rows[j], v))
  }

  lemma MigrateRowExtends(t: UserTable, row: Row, v: string)
    requires |row| >= Width && Valid(t) && AtMostOneEmail(t.rows, row[8])
    ensures Extends(t, MigrateRow(t, row, v), v)
  {
    var r := MigrateRow(t, row, v);
    if HasEmail(t.rows, row[8]) {
      var j :| 0 <= j < |t.rows| && t.rows[j].fields.email == Some(row[8]);
      assert r.rows == t.rows[j := Revised(t.rows[j], row[3], v)];
      assert Tagged(r.rows[j], v);
    } else {
      assert r.rows == t.rows + [Shell(t.nextId, row[3], v)];
      assert r.rows[|t.rows|] == Shell(t.nextId, row[3], v);
    }
  }

  lemma ExtendsTransitive(a: UserTable, b: UserTable, c: UserTable, v: string)
    requires Extends(a, b, v) && Extends(b, c, v)
    ensures Extends(a, c, v)
  {
  }

  /** A step that keeps e-mails and adds only rows without one stores the same e-mails. */
  lemma HasEmailCarries(t: UserTable, r: UserTable, v: string, email: string)
    requires Extends(t, r, v)
    ensures HasEmail(r.rows, email) <==> HasEmail(t.rows, email)
  {
    if HasEmail(r.rows, email) {
      var j :| 0 <= j < |r.rows| && r.rows[j].fields.email == Some(email);
      assert t.rows[j].fields.email == Some(email);
    }
    if HasEmail(t.rows, email) {
      var j :| 0 <= j < |t.rows| && t.rows[j].fields.email == Some(email);
      assert r.rows[j].fields.email == Some(email);
    }
  }

  /** Uniqueness of an e-mail survives a step that keeps e-mails. */
  lemma UniqueCarries(t: UserTable, r: UserTable, v: string, email: string)
    requires Extends(t, r, v) && AtMostOneEmail(t.rows, email)
    ensures AtMostOneEmail(r.rows, email)
    ensures HasEmail(r.rows, email) <==> HasEmail(t.rows, email)
  {
    HasEmailCarries(t, r, v, email);
  }

  lemma KeysUniqueCarries(t: UserTable, r: UserTable, v: string, rows: seq<Row>)
    requires Wide(rows, Width) && KeysUnique(t, rows) && Extends(t, r, v)
    ensures KeysUnique(r, rows)
  {
    forall k | 0 <= k < |rows|
      ensures AtMostOneEmail(r.rows, rows[k][8])
    {
      UniqueCarries(t, r, v, rows[k][8]);
    }
  }

  /** The loop of migrate over the page rows, in order. */
  function MigrateRows(t: UserTable, rows: seq<Row>, v: string): (r: UserTable)
    requires Wide(rows, Width) && Valid(t) && KeysUnique(t, rows)
    ensures Valid(r) && Extends(t, r, v)
    decreases |rows|
  {
    if |rows| == 0 then t
    else
      var prefix := rows[..|rows| - 1];
      var t' := MigrateRows(t, prefix, v);
      var row := rows[|rows| - 1];
      UniqueCarries(t, t', v, row[8]);
      MigrateRowExtends(t', row, v);
      ExtendsTransitive(t, t', MigrateRow(t', row, v), v);
      MigrateRow(t', row, v)
  }

  /** The phone number the rows give the user with `email`: that of the last row carrying it. */
  function LastPhone(rows: seq<Row>, email: string): Option<string>
    requires Wide(rows, Width)
    decreases |rows|
  {
    if |rows| == 0 then None
    else if rows[|rows| - 1][8] == email then Some(rows[|rows| - 1][3])
    else LastPhone(rows[..|rows| - 1], email)
  }

  /** A stored user after the rows: revised by the last row with its e-mail, else as it was. */
  function RevisedBy(u: Users, rows: seq<Row>, v: string): Users
    requires Wide(rows, Width)
  {
    match u.fields.email
    case None => u
    case Some(e) =>
      match LastPhone(rows, e)
      case None => u
      case Some(phone) => Revised(u, phone, v)
  }

  /** The rows saved for the rows whose e-mail matches no stored user, in row order. */
  function Shells(t: UserTable, rows: seq<Row>, v: string): seq<Users>
    requires Wide(rows, Width)
    decreases |rows|
  {
    if |rows| == 0 then []
    else
      var before := Shells(t, rows[..|rows| - 1], v);
      var row := rows[|rows| - 1];
      if HasEmail(t.rows, row[8]) then before else before + [Shell(t.nextId + |before|, row[3], v)]
  }

  /**
   * `r` is `t` after the rows: every stored user revised by the last row with its e-mail (all
   * its other columns as they were), and one shell appended per row whose e-mail matches no
   * stored user.
   */
  ghost predicate MigratedAs(t: UserTable, rows: seq<Row>, v: string, r: UserTable)
    requires Wide(rows, Width)
  {
    && |r.rows| == |t.rows| + |Shells(t, rows, v)|
    && (forall j :: 0 <= j < |t.rows| ==> r.rows[j] == RevisedBy(t.rows[j], rows, v))
    && r.rows[|t.rows|..] == Shells(t, rows, v)
    && r.nextId == t.nextId + |Shells(t, rows, v)|
  }

  lemma LastPhoneOfLast(prefix: seq<Row>, row: Row, email: string)
    requires Wide(prefix, Width) && |row| >= Width
    ensures Wide(prefix + [row], Width)
    ensures LastPhone(prefix + [row], email)
            == if row[8] == email then Some(row[3]) else LastPhone(prefix, email)
  {
    assert (prefix + [row])[..|prefix|] == prefix;
  }

  lemma ShellsOfLast(t: UserTable, prefix: seq<Row>, row: Row, v: string)
    requires Wide(prefix, Width) && |row| >= Width
    ensures Wide(prefix + [row], Width)
    ensures Shells(t, prefix + [row], v)
            == if HasEmail(t.rows, row[8]) then Shells(t, prefix, v)
               else Shells(t, prefix, v) + [Shell(t.nextId + |Shells(t, prefix, v)|, row[3], v)]
  {
    assert (prefix + [row])[..|prefix|] == prefix;
  }

  /** A user whose e-mail is not the row's is left alone by the row. */
  lemma RevisedByOther(u: Users, prefix: seq<Row>, row: Row, v: string)
    requires Wide(prefix, Width) && |row| >= Width && u.fields.email != Some(row[8])
    ensures Wide(prefix + [row], Width)
    ensures RevisedBy(u, prefix + [row], v) == RevisedBy(u, prefix, v)
  {
    if u.fields.email.Some? {
      LastPhoneOfLast(prefix, row, u.fields.email.value);
    }
  }

  /** The user with the row's e-mail ends with the row's phone number and the version. */
  lemma RevisedBySame(u: Users, prefix: seq<Row>, row: Row, v: string)
    requires Wide(prefix, Width) && |row| >= Width && u.fields.email == Some(row[8])
    ensures Wide(prefix + [row], Width)
    ensures RevisedBy(u, prefix + [row], v) == Revised(RevisedBy(u, prefix, v), row[3], v)
  {
    LastPhoneOfLast(prefix, row, row[8]);
  }

  lemma StepFound(t: UserTable, t': UserTable, prefix: seq<Row>, row: Row, v: string, j: nat)
    requires Wide(prefix, Width) && |row| >= Width
    requires j < |t.rows| && t.rows[j].fields.email == Some(row[8]) && AtMostOneEmail(t.rows, row[8])
    requires MigratedAs(t, prefix, v, t')
    ensures Wide(prefix + [row], Width)
    ensures MigratedAs(t, prefix + [row], v, Table(t'.rows[j := Revised(t'.rows[j], row[3], v)], t'.nextId))
  {
    var r := Table(t'.rows[j := Revised(t'.rows[j], row[3], v)], t'.nextId);
    ShellsOfLast(t, prefix, row, v);
    forall i | 0 <= i < |t.rows|
      ensures r.rows[i] == RevisedBy(t.rows[i], prefix + [row], v)
    {
      if i == j {
        RevisedBySame(t.rows[i], prefix, row, v);
      } else {
        RevisedByOther(t.rows[i], prefix, row, v);
      }
    }
    assert r.rows[|t.rows|..] == t'.rows[|t.rows|..];
  }

  lemma StepAbsent(t: UserTable, t': UserTable, prefix: seq<Row>, row: Row, v: string)
    requires Wide(prefix, Width) && |row| >= Width
    requires !HasEmail(t.rows, row[8])
    requires MigratedAs(t, prefix, v, t')
    ensures Wide(prefix + [row], Width)
    ensures MigratedAs(t, prefix + [row], v, Table(t'.rows + [Shell(t'.nextId, row[3], v)], t'.nextId + 1))
  {
    var r := Table(t'.rows + [Shell(t'.nextId, row[3], v)], t'.nextId + 1);
    ShellsOfLast(t, prefix, row, v);
    forall i | 0 <= i < |t.rows|
      ensures r.rows[i] == RevisedBy(t.rows[i], prefix + [row], v)
    {
      RevisedByOther(t.rows[i], prefix, row, v);
    }
    assert r.rows[|t.rows|..] == t'.rows[|t.rows|..] + [Shell(t'.nextId, row[3], v)];
  }

  /** The loop over the page rows ends exactly in the state MigratedAs describes. */
  lemma {:induction false} MigrateRowsOutcome(t: UserTable, rows: seq<Row>, v: string)
    requires Wide(rows, Width) && Valid(t) && KeysUnique(t, rows)
    ensures MigratedAs(t, rows, v, MigrateRows(t, rows, v))
    decreases |rows|
  {
    if |rows| > 0 {
      var prefix := rows[..|rows| - 1];
      var row := rows[|rows| - 1];
      assert rows == prefix + [row];
      MigrateRowsOutcome(t, prefix, v);
      var t' := MigrateRows(t, prefix, v);
      UniqueCarries(t, t', v, row[8]);
      if HasEmail(t.rows, row[8]) {
        var j :| 0 <= j < |t.rows| && t.rows[j].fields.email == Some(row[8]);
        StepFound(t, t', prefix, row, v, j);
      } else {
        StepAbsent(t, t', prefix, row, v);
      }
    }
  }

  /** Every shell carries the version, a phone number, an id, and no other column. */
  lemma {:induction false} ShellsShape(t: UserTable, rows: seq<Row>, v: string)
    requires Wide(rows, Width)
    ensures forall k :: 0 <= k < |Shells(t, rows, v)| ==>
              var s := Shells(t, rows, v)[k];
              s.id.Some? && Tagged(s, v) && s.fields.phoneNumber.Some?
              && s.fields.(phoneNumber := None) == NoUserFields
    decreases |rows|
  {
    if |rows| > 0 {
      ShellsShape(t, rows[..|rows| - 1], v);
    }
  }

  /** Two tables that agree on which of the rows' e-mails they hold get equally many shells. */
  lemma {:induction false} ShellsLength(t: UserTable, t': UserTable, rows: seq<Row>, v: string)
    requires Wide(rows, Width)
    requires forall k :: 0 <= k < |rows| ==> (HasEmail(t.rows, rows[k][8]) <==> HasEmail(t'.rows, rows[k][8]))
    ensures |Shells(t, rows, v)| == |Shells(t', rows, v)|
    decreases |rows|
  {
    if |rows| > 0 {
      ShellsLength(t, t', rows[..|rows| - 1], v);
    }
  }

  /** A row whose e-mail no stored user has yields at least one shell. */
  lemma {:induction false} ShellsNonEmpty(t: UserTable, rows: seq<Row>, v: string, k: nat)
    requires Wide(rows, Width) && k < |rows| && !HasEmail(t.rows, rows[k][8])
    ensures |Shells(t, rows, v)| > 0
    decreases |rows|
  {
    if k < |rows| - 1 {
      ShellsNonEmpty(t, rows[..|rows| - 1], v, k);
    }
  }

  /** Revising a second time by the same rows changes nothing more. */
  lemma RevisedByIdempotent(u: Users, rows: seq<Row>, v: string)
    requires Wide(rows, Width)
    ensures RevisedBy(RevisedBy(u, rows, v), rows, v) == RevisedBy(u, rows, v)
  {
  }

  /** migrate(page, size, version) */
  function Migrate(source: seq<Row>, t: UserTable, page: nat, size: nat, v: string): (r: UserTable)
    requires Wide(ReadPage(source, page, size), Width) && Valid(t)
    requires KeysUnique(t, ReadPage(source, page, size))
    ensures Valid(r) && Extends(t, r, v)
    ensures MigratedAs(t, ReadPage(source, page, size), v, r)
  {
    MigrateRowsOutcome(t, ReadPage(source, page, size), v);
    MigrateRows(t, ReadPage(source, page, size), v)
  }

  /** getSize */
  function Size(source: seq<Row>): (n: nat)
    ensures n == |source|
  {
    Pages.Size(CountQuery(source))
  }

  /**
   * rollback(version): first null the phone number of every row tagged with the version,
   * then retag those rows "1.0.0"; rows with any other tag are left alone.
   */
  function Rollback(t: UserTable, v: string): (r: UserTable)
    ensures r.nextId == t.nextId && |r.rows| == |t.rows|
    ensures Valid(t) ==> Valid(r)
    ensures forall i :: 0 <= i < |t.rows| ==>
              r.rows[i] == if Tagged(t.rows[i], v)
                           then t.rows[i].(version := Some(PreviousVersion),
                                           fields := t.rows[i].fields.(phoneNumber := None))
                           else t.rows[i]
    ensures v != PreviousVersion ==> forall i :: 0 <= i < |r.rows| ==> !Tagged(r.rows[i], v)
  {
    ResetVersion(ResetPhoneNumber(t, v), v, PreviousVersion)
  }

  /**
   * The order of the two statements matters: retagging first would leave the phone numbers
   * in place, since no row would be tagged with the version any more.
   */
  lemma RetagFirstKeepsPhones(t: UserTable, v: string, i: nat)
    requires v != PreviousVersion && i < |t.rows| && Tagged(t.rows[i], v)
    ensures ResetPhoneNumber(ResetVersion(t, v, PreviousVersion), v).rows[i].fields.phoneNumber
            == t.rows[i].fields.phoneNumber
  {
  }

  /**
   * Round trip: over users that are all at "1.0.0" without phone number, migrating a page and
   * rolling the version back restores every stored user exactly; what remains are the shells,
   * now at "1.0.0" with every column empty.
   */
  lemma RollbackUndoesMigrate(source: seq<Row>, t: UserTable, page: nat, size: nat, v: string)
    requires Wide(ReadPage(source, page, size), Width) && Valid(t)
    requires KeysUnique(t, ReadPage(source, page, size))
    requires forall i :: 0 <= i < |t.rows| ==>
               Tagged(t.rows[i], PreviousVersion) && t.rows[i].fields.phoneNumber.None?
    ensures var r := Rollback(Migrate(source, t, page, size, v), v);
            && |r.rows| >= |t.rows|
            && r.rows[..|t.rows|] == t.rows
            && forall j :: |t.rows| <= j < |r.rows| ==>
                 r.rows[j].id.Some? && r.rows[j].version == Some(PreviousVersion) && r.rows[j].fields == NoUserFields
  {
    var rows := ReadPage(source, page, size);
    var m := Migrate(source, t, page, size, v);
    var r := Rollback(m, v);
    ShellsShape(t, rows, v);
    forall j | 0 <= j < |t.rows|
      ensures r.rows[j] == t.rows[j]
    {
      assert m.rows[j] == RevisedBy(t.rows[j], rows, v);
    }
    forall j | |t.rows| <= j < |r.rows|
      ensures r.rows[j].id.Some? && r.rows[j].version == Some(PreviousVersion) && r.rows[j].fields == NoUserFields
    {
      assert m.rows[j] == Shells(t, rows, v)[j - |t.rows|];
    }
  }

  /**
   * Re-running a page over the state it produced leaves every row already there as it is
   * (the revision of a found user is idempotent), but appends another shell for each row
   * whose e-mail matched no user, because shells never receive the e-mail.
   */
  lemma RerunPage(source: seq<Row>, t: UserTable, page: nat, size: nat, v: string)
    requires Wide(ReadPage(source, page, size), Width) && Valid(t)
    requires KeysUnique(t, ReadPage(source, page, size))
    ensures var r1 := Migrate(source, t, page, size, v);
            Valid(r1) && KeysUnique(r1, ReadPage(source, page, size))
    ensures var r1 := Migrate(source, t, page, size, v);
            var r2 := Migrate(source, r1, page, size, v);
            && |r2.rows| >= |r1.rows|
            && r2.rows[..|r1.rows|] == r1.rows
            && |r2.rows| - |r1.rows| == |r1.rows| - |t.rows|
            && ((exists k :: 0 <= k < |ReadPage(source, page, size)| &&
                            !HasEmail(t.rows, ReadPage(source, page, size)[k][8]))
                ==> |r2.rows| > |r1.rows|)
  {
    var rows := ReadPage(source, page, size);
    var r1 := Migrate(source, t, page, size, v);
    KeysUniqueCarries(t, r1, v, rows);
    var r2 := Migrate(source, r1, page, size, v);
    forall j | 0 <= j < |r1.rows|
      ensures r2.rows[j] == r1.rows[j]
    {
      if j < |t.rows| {
        RevisedByIdempotent(t.rows[j], rows, v);
      } else {
        assert r1.rows[j].fields.email.None?;
      }
    }
    forall k | 0 <= k < |rows|
      ensures HasEmail(t.rows, rows[k][8]) <==> HasEmail(r1.rows, rows[k][8])
    {
      UniqueCarries(t, r1, v, rows[k][8]);
    }
    ShellsLength(t, r1, rows, v);
    if exists k :: 0 <= k < |rows| && !HasEmail(t.rows, rows[k][8]) {
      var k :| 0 <= k < |rows| && !HasEmail(t.rows, rows[k][8]);
      ShellsNonEmpty(t, rows, v, k);
    }
  }

  /** The page's e-mails are among the source's, so uniqueness over the source covers the page. */
  lemma PageKeysUnique(t: UserTable, source: seq<Row>, page: nat, size: nat)
    requires Wide(source, Width) && KeysUnique(t, source)
    ensures Wide(ReadPage(source, page, size), Width)
    ensures KeysUnique(t, ReadPage(source, page, size))
  {
    PageWide(source, page, size, Width);
  }

  /** Every row is tagged either `w` or `v`. */
  predicate TaggedEither(t: UserTable, w: string, v: string)
  {
    forall i :: 0 <= i < |t.rows| ==> Tagged(t.rows[i], w) || Tagged(t.rows[i], v)
  }

  /** A run keeps every row tagged with the earlier tag `w` or with its own version. */
  lemma ExtendsKeepsTags(t: UserTable, r: UserTable, v: string, w: string)
    requires Extends(t, r, v) && TaggedEither(t, w, v)
    ensures TaggedEither(r, w, v)
  {
  }

  /** Every e-mail the rows carry is already stored. */
  predicate AllKeysStored(t: UserTable, rows: seq<Row>)
    requires Wide(rows, Width)
  {
    forall k :: 0 <= k < |rows| ==> HasEmail(t.rows, rows[k][8])
  }

  /** The state version 1.0.0 leaves: every row at "1.0.0" and without phone number. */
  predicate AtPrevious(t: UserTable) {
    forall i :: 0 <= i < |t.rows| ==> Tagged(t.rows[i], PreviousVersion) && t.rows[i].fields.phoneNumber.None?
  }

  /** When every e-mail of the rows is stored, no shell is created. */
  lemma {:induction false} NoShellsWhenAllStored(t: UserTable, rows: seq<Row>, v: string)
    requires Wide(rows, Width) && AllKeysStored(t, rows)
    ensures Shells(t, rows, v) == []
    decreases |rows|
  {
    if |rows| > 0 {
      var prefix := rows[..|rows| - 1];
      assert forall k :: 0 <= k < |prefix| ==> prefix[k] == rows[k];
      NoShellsWhenAllStored(t, prefix, v);
      assert HasEmail(t.rows, rows[|rows| - 1][8]);
    }
  }

  /** Rolling back undoes a revision of every row when no shell was added. */
  lemma RollbackRevised(t: UserTable, m: UserTable, r: UserTable, rows: seq<Row>, v: string)
    requires Wide(rows, Width) && v != PreviousVersion && AtPrevious(t) && Rollback(m, v) == t
    requires |r.rows| == |m.rows| && r.nextId == m.nextId
    requires forall j :: 0 <= j < |m.rows| ==> r.rows[j] == RevisedBy(m.rows[j], rows, v)
    ensures Rollback(r, v) == t
  {
    var back := Rollback(r, v);
    forall j | 0 <= j < |back.rows|
      ensures back.rows[j] == t.rows[j]
    {
      assert Rollback(m, v).rows[j] == t.rows[j];
    }
  }

  /** A table at "1.0.0" holds no row tagged with a later version, so rollback leaves it as it is. */
  lemma RollbackAtPrevious(t: UserTable, v: string)
    requires v != PreviousVersion && AtPrevious(t)
    ensures Rollback(t, v) == t
  {
    assert Rollback(t, v).rows == t.rows;
  }

  /**
   * A run over rows whose every e-mail version 1.0.0 already stored, over users all at
   * "1.0.0" without phone number, is undone by rolling the version back: no shell was added,
   * and every revised user returns to "1.0.0" without phone number.
   */
  lemma RollbackUndoesRun(t: UserTable, r: UserTable, rows: seq<Row>, v: string)
    requires Wide(rows, Width) && MigratedAs(t, rows, v, r)
    requires AllKeysStored(t, rows) && v != PreviousVersion && AtPrevious(t)
    ensures Rollback(r, v) == t
  {
    NoShellsWhenAllStored(t, rows, v);
    RollbackAtPrevious(t, v);
    RollbackRevised(t, t, r, rows, v);
  }

  /** Two row sequences read one after the other: the later one's phone number for an e-mail wins. */
  lemma {:induction false} LastPhoneAppend(p1: seq<Row>, p2: seq<Row>, email: string)
    requires Wide(p1, Width) && Wide(p2, Width)
    ensures Wide(p1 + p2, Width)
    ensures LastPhone(p1 + p2, email)
            == if LastPhone(p2, email).Some? then LastPhone(p2, email) else LastPhone(p1, email)
    decreases |p2|
  {
    WideAppend(p1, p2, Width);
    if |p2| == 0 {
      assert p1 + p2 == p1;
    } else {
      var q := p2[..|p2| - 1];
      var row := p2[|p2| - 1];
      assert p2 == q + [row];
      assert p1 + p2 == (p1 + q) + [row];
      LastPhoneAppend(p1, q, email);
      LastPhoneOfLast(p1 + q, row, email);
      LastPhoneOfLast(q, row, email);
    }
  }

  /** Revising by two row sequences one after the other is revising by both at once. */
  lemma RevisedByAppend(u: Users, p1: seq<Row>, p2: seq<Row>, v: string)
    requires Wide(p1, Width) && Wide(p2, Width)
    ensures Wide(p1 + p2, Width)
    ensures RevisedBy(RevisedBy(u, p1, v), p2, v) == RevisedBy(u, p1 + p2, v)
  {
    WideAppend(p1, p2, Width);
    if u.fields.email.Some? {
      LastPhoneAppend(p1, p2, u.fields.email.value);
    }
  }

  /**
   * The rows saved for unmatched e-mails of two row sequences, the second looked up in the
   * table the first left behind, which stores the same e-mails.
   */
  lemma {:induction false} ShellsAppend(t: UserTable, m: UserTable, p1: seq<Row>, p2: seq<Row>, v: string)
    requires Wide(p1, Width) && Wide(p2, Width)
    requires Extends(t, m, v) && m.nextId == t.nextId + |Shells(t, p1, v)|
    ensures Wide(p1 + p2, Width)
    ensures Shells(t, p1 + p2, v) == Shells(t, p1, v) + Shells(m, p2, v)
    decreases |p2|
  {
    WideAppend(p1, p2, Width);
    if |p2| == 0 {
      assert p1 + p2 == p1;
    } else {
      var q := p2[..|p2| - 1];
      var row := p2[|p2| - 1];
      assert (p1 + p2)[..|p1 + p2| - 1] == p1 + q;
      assert (p1 + p2)[|p1 + p2| - 1] == row;
      ShellsAppend(t, m, p1, q, v);
      HasEmailCarries(t, m, v, row[8]);
      var a := Shells(t, p1, v);
      var b := Shells(m, q, v);
      if !HasEmail(t.rows, row[8]) {
        var x := Shell(m.nextId + |b|, row[3], v);
        assert Shells(t, p1 + p2, v) == (a + b) + [x];
        assert (a + b) + [x] == a + (b + [x]);
      }
    }
  }

  /** Saved rows hold no e-mail, so a later run leaves them as they are and appends its own. */
  lemma ShellsUntouched(t: UserTable, m: UserTable, r: UserTable, p1: seq<Row>, p2: seq<Row>, v: string)
    requires Wide(p1, Width) && Wide(p2, Width)
    requires MigratedAs(t, p1, v, m) && MigratedAs(m, p2, v, r) && Extends(t, m, v)
    ensures r.rows[|t.rows|..] == Shells(t, p1, v) + Shells(m, p2, v)
  {
    assert r.rows[|t.rows|..|m.rows|] == m.rows[|t.rows|..];
    assert r.rows[|t.rows|..] == r.rows[|t.rows|..|m.rows|] + r.rows[|m.rows|..];
  }

  /** Rows stored before both runs are revised by the two row sequences as by one. */
  lemma RevisedTwice(t: UserTable, m: UserTable, r: UserTable, p1: seq<Row>, p2: seq<Row>, v: string)
    requires Wide(p1, Width) && Wide(p2, Width)
    requires MigratedAs(t, p1, v, m) && MigratedAs(m, p2, v, r)
    ensures Wide(p1 + p2, Width)
    ensures forall j :: 0 <= j < |t.rows| ==> r.rows[j] == RevisedBy(t.rows[j], p1 + p2, v)
  {
    WideAppend(p1, p2, Width);
    forall j | 0 <= j < |t.rows|
      ensures r.rows[j] == RevisedBy(t.rows[j], p1 + p2, v)
    {
      RevisedByAppend(t.rows[j], p1, p2, v);
    }
  }

  /** Two runs of the loop, the second over the table the first produced, are one run over both. */
  lemma MigratedAsAppend(t: UserTable, m: UserTable, r: UserTable, p1: seq<Row>, p2: seq<Row>, v: string)
    requires Wide(p1, Width) && Wide(p2, Width)
    requires MigratedAs(t, p1, v, m) && MigratedAs(m, p2, v, r) && Extends(t, m, v)
    ensures Wide(p1 + p2, Width)
    ensures MigratedAs(t, p1 + p2, v, r)
  {
    RevisedTwice(t, m, r, p1, p2, v);
    ShellsAppend(t, m, p1, p2, v);
    ShellsUntouched(t, m, r, p1, p2, v);
  }

  /** One more page, run over the outcome of the pages before it, gives the outcome of them all. */
  lemma PageOutcome(source: seq<Row>, t: UserTable, m: UserTable, r: UserTable, page: nat, size: nat, v: string)
    requires Wide(source, Width) && Extends(t, m, v)
    requires Wide(ReadPages(source, size, page), Width) && MigratedAs(t, ReadPages(source, size, page), v, m)
    requires Wide(ReadPage(source, page, size), Width) && MigratedAs(m, ReadPage(source, page, size), v, r)
    ensures Wide(ReadPages(source, size, page + 1), Width) && MigratedAs(t, ReadPages(source, size, page + 1), v, r)
  {
    assert ReadPages(source, size, page + 1) == ReadPages(source, size, page) + ReadPage(source, page, size);
    MigratedAsAppend(t, m, r, ReadPages(source, size, page), ReadPage(source, page, size), v);
  }

  /** Before any page, the table is the loop's outcome over no rows. */
  lemma MigratedAsNothing(t: UserTable, v: string)
    ensures MigratedAs(t, [], v, t)
  {
    assert t.rows[|t.rows|..] == [];
  }

  /** Pages enough to cover the source: their outcome is the outcome over the whole source. */
  lemma CoveringPagesOutcome(source: seq<Row>, t: UserTable, r: UserTable, size: nat, count: nat, v: string)
    requires Wide(source, Width)
    requires Wide(ReadPages(source, size, count), Width) && MigratedAs(t, ReadPages(source, size, count), v, r)
    ensures size >= 1 && count == PageCount(|source|, size) ==> MigratedAs(t, source, v, r)
  {
    if size >= 1 && count == PageCount(|source|, size) {
      PaginationComplete(source, size);
    }
  }

  /** One iteration of the assumed driver loop: page `page` migrated after the pages before it. */
  method MigrateNextPage(source: seq<Row>, t: UserTable, m: UserTable, page: nat, size: nat, v: string)
      returns (r: UserTable)
    requires Wide(source, Width) && Valid(m) && KeysUnique(m, source) && Extends(t, m, v)
    requires Wide(ReadPages(source, size, page), Width) && MigratedAs(t, ReadPages(source, size, page), v, m)
    ensures Valid(r) && KeysUnique(r, source) && Extends(t, r, v)
    ensures Wide(ReadPages(source, size, page + 1), Width) && MigratedAs(t, ReadPages(source, size, page + 1), v, r)
  {
    PageKeysUnique(m, source, page, size);
    r := Migrate(source, m, page, size, v);
    PageOutcome(source, t, m, r, page, size, v);
    ExtendsTransitive(t, m, r, v);
    KeysUniqueCarries(t, r, v, source);
  }

  /**
   * The driver loop this model assumes: pages 0 .. count - 1 migrated in order. The outcome
   * is that of the loop of migrate over all their rows at once: every stored user revised by
   * the last row with its e-mail, one shell per row whose e-mail no user carries. With as many
   * pages as cover the source, that is the outcome over the whole source. Each e-mail of the
   * source keeps matching at most one user, and the table is only ever extended.
   */
  method MigratePages(source: seq<Row>, t: UserTable, size: nat, count: nat, v: string) returns (r: UserTable)
    requires Wide(source, Width) && Valid(t) && KeysUnique(t, source)
    ensures Valid(r) && KeysUnique(r, source) && Extends(t, r, v)
    ensures Wide(ReadPages(source, size, count), Width) && MigratedAs(t, ReadPages(source, size, count), v, r)
    ensures size >= 1 && count == PageCount(|source|, size) ==> MigratedAs(t, source, v, r)
  {
    r := t;
    MigratedAsNothing(t, v);
    var page := 0;
    while page < count
      invariant page <= count
      invariant Valid(r) && KeysUnique(r, source) && Extends(t, r, v)
      invariant Wide(ReadPages(source, size, page), Width) && MigratedAs(t, ReadPages(source, size, page), v, r)
    {
      r := MigrateNextPage(source, t, r, page, size, v);
      page := page + 1;
    }
    CoveringPagesOutcome(source, t, r, size, count, v);
  }
}
