/** UserRepository: the bulk statements and the e-mail lookup the user jobs use on `users`. */
module UserRepository {
  import opened Wrappers
  import opened Store
  import opened Domain

  type UserTable = Table<UserFields>

  predicate HasEmail(rows: seq<Users>, email: string) {
    exists i :: 0 <= i < |rows| && rows[i].fields.email == Some(email)
  }

  /** At most one row carries `email`: the condition under which findByEmail may return an Optional. */
  predicate AtMostOneEmail(rows: seq<Users>, email: string) {
    forall i, j ::
      (0 <= i < |rows| && 0 <= j < |rows| &&
       rows[i].fields.email == Some(email) && rows[j].fields.email == Some(email)) ==> i == j
  }

  /** `DELETE FROM users WHERE version = :version` */
  function DeleteUsersByVersion(t: UserTable, v: string): (r: UserTable)
    ensures r.nextId == t.nextId
    ensures Valid(t) ==> Valid(r)
    ensures forall u :: multiset(r.rows)[u] == if Tagged(u, v) then 0 else multiset(t.rows)[u]
  {
    UntaggedMultiset(t.rows, v);
    UntaggedKeepsValid(t, v);
    t.(rows := Untagged(t.rows, v))
  }

  /** findByEmail: the one row whose email is `email`, or none. */
  function FindByEmail(t: UserTable, email: string): (r: Option<Users>)
    requires AtMostOneEmail(t.rows, email)
    ensures r.None? <==> !HasEmail(t.rows, email)
    ensures forall i :: 0 <= i < |t.rows| && t.rows[i].fields.email == Some(email) ==> r == Some(t.rows[i])
  {
    match FindFirst(t.rows, (u: Users) => u.fields.email == Some(email))
    case Some(i) => Some(t.rows[i])
    case None => None
  }

  /** `UPDATE users SET phone_number = NULL WHERE version = :version` */
  function ResetPhoneNumber(t: UserTable, v: string): (r: UserTable)
    ensures r.nextId == t.nextId && |r.rows| == |t.rows|
    ensures Valid(t) ==> Valid(r)
    ensures forall i :: 0 <= i < |t.rows| ==>
              r.rows[i].fields.phoneNumber == if Tagged(t.rows[i], v) then None else t.rows[i].fields.phoneNumber
    ensures forall i :: 0 <= i < |t.rows| ==>
              r.rows[i] == t.rows[i].(fields := t.rows[i].fields.(phoneNumber := r.rows[i].fields.phoneNumber))
  {
    t.(rows := UpdateTagged(t.rows, v, (u: Users) => u.(fields := u.fields.(phoneNumber := None))))
  }

  /** `UPDATE users SET version = :newVersion WHERE version = :oldVersion` */
  function ResetVersion(t: UserTable, oldVersion: string, newVersion: string): (r: UserTable)
    ensures r.nextId == t.nextId && |r.rows| == |t.rows|
    ensures Valid(t) ==> Valid(r)
    ensures forall i :: 0 <= i < |t.rows| ==>
              r.rows[i].version == if Tagged(t.rows[i], oldVersion) then Some(newVersion) else t.rows[i].version
    ensures forall i :: 0 <= i < |t.rows| ==> r.rows[i] == t.rows[i].(version := r.rows[i].version)
    ensures oldVersion != newVersion ==> forall i :: 0 <= i < |r.rows| ==> !Tagged(r.rows[i], oldVersion)
  {
    t.(rows := UpdateTagged(t.rows, oldVersion, (u: Users) => u.(version := Some(newVersion))))
  }

  /** Rows with a NULL version are never touched by any of the `WHERE version = :v` statements. */
  lemma NullVersionNeverMatches(t: UserTable, v: string, w: string, i: nat)
    requires i < |t.rows| && t.rows[i].version.None?
    ensures t.rows[i] in DeleteUsersByVersion(t, v).rows
    ensures ResetPhoneNumber(t, v).rows[i] == t.rows[i]
    ensures ResetVersion(t, v, w).rows[i] == t.rows[i]
  {
  }

  /** Deleting by a version twice deletes no more than once. */
  lemma DeleteIdempotent(t: UserTable, v: string)
    ensures DeleteUsersByVersion(DeleteUsersByVersion(t, v), v) == DeleteUsersByVersion(t, v)
  {
    UntaggedKeepsAll(Untagged(t.rows, v), v);
  }

  /** Resetting phone numbers twice for a version resets no more than once. */
  lemma ResetPhoneNumberIdempotent(t: UserTable, v: string)
    ensures ResetPhoneNumber(ResetPhoneNumber(t, v), v) == ResetPhoneNumber(t, v)
  {
    var once := ResetPhoneNumber(t, v);
    var twice := ResetPhoneNumber(once, v);
    assert twice.rows == once.rows by {
      forall i | 0 <= i < |once.rows|
        ensures twice.rows[i] == once.rows[i]
      {
      }
    }
  }

  /** Retagging twice from one version to another retags no more than once. */
  lemma ResetVersionIdempotent(t: UserTable, oldVersion: string, newVersion: string)
    ensures ResetVersion(ResetVersion(t, oldVersion, newVersion), oldVersion, newVersion)
            == ResetVersion(t, oldVersion, newVersion)
  {
    var once := ResetVersion(t, oldVersion, newVersion);
    var twice := ResetVersion(once, oldVersion, newVersion);
    assert twice.rows == once.rows by {
      forall i | 0 <= i < |once.rows|
        ensures twice.rows[i] == once.rows[i]
      {
      }
    }
  }
}
