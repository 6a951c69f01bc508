/**
 * The two user jobs run one after the other by the assumed driver (every page in order), then
 * rolled back in reverse order: version 1.0.0 copies the legacy users, version 1.1.0 adds their phone
 * numbers, and backing both out again leaves no user behind.
 */
module UserMigration {
  import opened Wrappers
  import opened Pages
  import opened Store
  import opened Domain
  import opened UserRepository
  import V1 = UserJobV1_0_0
  import V2 = UserJobV1_1_0

  /** No two legacy user rows share an e-mail. */
  predicate DistinctEmails(source: seq<Row>)
    requires Wide(source, V1.Width)
  {
    forall i, j :: 0 <= i < j < |source| ==> source[i][8] != source[j][8]
  }

  /** The table version 1.0.0 builds from an empty one, with identity values from `firstId`. */
  function Copied(source: seq<Row>, firstId: nat): UserTable
    requires Wide(source, V1.Width)
  {
    Table(V1.CreatedRows(source, V1.Version, firstId), firstId + |source|)
  }

  /** The created users carry consecutive, distinct identity values below the sequence. */
  lemma CopiedValid(source: seq<Row>, firstId: nat)
    requires Wide(source, V1.Width)
    ensures Valid(Copied(source, firstId))
  {
    var t := Copied(source, firstId);
    forall i, j | 0 <= i < j < |t.rows|
      ensures t.rows[i].id != t.rows[j].id
    {
      assert t.rows[i].id == Some(firstId + i) && t.rows[j].id == Some(firstId + j);
    }
  }

  /**
   * With distinct legacy e-mails, the copy holds every e-mail exactly once, every user at
   * "1.0.0" and without phone number: what version 1.1.0 needs to revise users in place.
   */
  lemma CopiedReady(source: seq<Row>, firstId: nat)
    requires Wide(source, V1.Width) && DistinctEmails(source)
    ensures V2.KeysUnique(Copied(source, firstId), source)
    ensures V2.AllKeysStored(Copied(source, firstId), source)
    ensures V2.AtPrevious(Copied(source, firstId))
  {
    var t := Copied(source, firstId);
    forall k | 0 <= k < |source|
      ensures AtMostOneEmail(t.rows, source[k][8]) && HasEmail(t.rows, source[k][8])
    {
      assert t.rows[k].fields.email == Some(source[k][8]);
      forall i, j | 0 <= i < |t.rows| && 0 <= j < |t.rows| &&
                    t.rows[i].fields.email == Some(source[k][8]) && t.rows[j].fields.email == Some(source[k][8])
        ensures i == j
      {
        assert t.rows[i].fields.email == Some(source[i][8]);
        assert t.rows[j].fields.email == Some(source[j][8]);
      }
    }
  }

  /**
   * The users the two versions make of the legacy rows: legacy row k becomes the user with
   * identity value firstId + k, tagged "1.1.0", with the phone number of column 3 and the
   * columns 4 to 8, and no birth date.
   */
  function Enriched(source: seq<Row>, firstId: nat): UserTable
    requires Wide(source, V1.Width)
  {
    Table(seq(|source|, k requires 0 <= k < |source| =>
                Record(Some(firstId + k), Some(V2.Version),
                       UserFields(None, Some(source[k][3]), Some(source[k][4]), Some(source[k][5]),
                                  Some(source[k][6]), Some(source[k][7]), Some(source[k][8])))),
          firstId + |source|)
  }

  /** With distinct e-mails, the phone number the rows give row k's e-mail is row k's own. */
  lemma {:induction false} LastPhoneOfDistinct(rows: seq<Row>, k: nat)
    requires Wide(rows, V1.Width) && DistinctEmails(rows) && k < |rows|
    ensures V2.LastPhone(rows, rows[k][8]) == Some(rows[k][3])
    decreases |rows|
  {
    if k < |rows| - 1 {
      var prefix := rows[..|rows| - 1];
      assert forall i :: 0 <= i < |prefix| ==> prefix[i] == rows[i];
      LastPhoneOfDistinct(prefix, k);
    }
  }

  /** Version 1.1.0 revises copied user k with the phone number of legacy row k. */
  lemma RevisedCopiedUser(source: seq<Row>, firstId: nat, k: nat)
    requires Wide(source, V1.Width) && DistinctEmails(source) && k < |source|
    ensures V2.RevisedBy(Copied(source, firstId).rows[k], source, V2.Version) == Enriched(source, firstId).rows[k]
  {
    assert Copied(source, firstId).rows[k] == V1.Created(source[k], V1.Version, firstId + k);
    LastPhoneOfDistinct(source, k);
  }

  /**
   * Version 1.1.0 over the copy, with distinct legacy e-mails, finds every legacy e-mail: each
   * copied user gets the phone number of its own legacy row and the tag "1.1.0", and no row
   * is added.
   */
  lemma RevisedCopy(source: seq<Row>, firstId: nat, revised: UserTable)
    requires Wide(source, V1.Width) && DistinctEmails(source)
    requires V2.MigratedAs(Copied(source, firstId), source, V2.Version, revised)
    ensures revised == Enriched(source, firstId)
  {
    var copied := Copied(source, firstId);
    var e := Enriched(source, firstId);
    CopiedReady(source, firstId);
    V2.NoShellsWhenAllStored(copied, source, V2.Version);
    assert |revised.rows| == |e.rows| && revised.nextId == e.nextId;
    forall k | 0 <= k < |source|
      ensures revised.rows[k] == e.rows[k]
    {
      RevisedCopiedUser(source, firstId, k);
    }
    assert revised.rows == e.rows;
  }

  /** Rolling version 1.1.0 back after it revised the copy gives the copy back. */
  lemma RollbackRevisedCopy(source: seq<Row>, firstId: nat, revised: UserTable)
    requires Wide(source, V1.Width) && DistinctEmails(source)
    requires V2.MigratedAs(Copied(source, firstId), source, V2.Version, revised)
    ensures V2.Rollback(revised, V2.Version) == Copied(source, firstId)
  {
    CopiedReady(source, firstId);
    assert V2.Version[2] != V2.PreviousVersion[2];
    V2.RollbackUndoesRun(Copied(source, firstId), revised, source, V2.Version);
  }

  /** Every page of version 1.0.0, as many as getSize calls for, builds the copy. */
  lemma CopyAll(source: seq<Row>, size: nat, firstId: nat)
    requires Wide(source, V1.Width) && size >= 1
    ensures V1.MigratePages(source, Table([], firstId), size, PageCount(V1.Size(source), size), V1.Version)
            == Copied(source, firstId)
  {
    V1.MigrateAllCreatesEachRowOnce(source, Table([], firstId), size, V1.Version);
    assert [] + V1.CreatedRows(source, V1.Version, firstId) == V1.CreatedRows(source, V1.Version, firstId);
  }

  /** Rolling version 1.0.0 back deletes the whole copy; the identity sequence stays where it is. */
  lemma RollbackCopied(source: seq<Row>, firstId: nat)
    requires Wide(source, V1.Width)
    ensures V1.Rollback(Copied(source, firstId), V1.Version) == Table([], firstId + |source|)
  {
    UntaggedDropsAll(Copied(source, firstId).rows, V1.Version);
  }

  /**
   * All pages of version 1.0.0 into an empty table, all pages of version 1.1.0 over the
   * result, rollback of 1.1.0, rollback of 1.0.0. Version 1.0.0 copies every legacy user once;
   * version 1.1.0 gives each of them the phone number of its own legacy row and adds no row;
   * rolling 1.1.0 back restores the copy exactly; rolling 1.0.0 back empties the table, with
   * the identity sequence moved on.
   */
  method MigrateAndRollBack(source: seq<Row>, size: nat, firstId: nat)
      returns (copied: UserTable, revised: UserTable, restored: UserTable, emptied: UserTable)
    requires Wide(source, V1.Width) && size >= 1 && DistinctEmails(source)
    ensures copied == Copied(source, firstId)
    ensures revised == Enriched(source, firstId)
    ensures restored == copied
    ensures emptied == Table([], firstId + |source|)
  {
    CopyAll(source, size, firstId);
    copied := V1.MigratePages(source, Table([], firstId), size, PageCount(V1.Size(source), size), V1.Version);
    CopiedValid(source, firstId);
    CopiedReady(source, firstId);
    revised := V2.MigratePages(source, copied, size, PageCount(V2.Size(source), size), V2.Version);
    RevisedCopy(source, firstId, revised);
    RollbackRevisedCopy(source, firstId, revised);
    restored := V2.Rollback(revised, V2.Version);
    RollbackCopied(source, firstId);
    emptied := V1.Rollback(restored, V1.Version);
  }
}
