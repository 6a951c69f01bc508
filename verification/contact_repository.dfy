/** ContactRepository: the bulk statements and the first-name lookup declared for `contact`. */
module ContactRepository {
  import opened Wrappers
  import opened Store
  import opened Domain

  type ContactTable = Table<ContactFields>

  predicate HasFirstName(rows: seq<Contact>, firstName: string) {
    exists i :: 0 <= i < |rows| && rows[i].fields.firstName == Some(firstName)
  }

  /** At most one row carries `firstName`: the condition under which findByFirstName may return an Optional. */
  predicate AtMostOneFirstName(rows: seq<Contact>, firstName: string) {
    forall i, j ::
      (0 <= i < |rows| && 0 <= j < |rows| &&
       rows[i].fields.firstName == Some(firstName) && rows[j].fields.firstName == Some(firstName)) ==> i == j
  }

  /** findByFirstName: the one row whose first name is `firstName`, or none. */
  function FindByFirstName(t: ContactTable, firstName: string): (r: Option<Contact>)
    requires AtMostOneFirstName(t.rows, firstName)
    ensures r.None? <==> !HasFirstName(t.rows, firstName)
    ensures forall i :: 0 <= i < |t.rows| && t.rows[i].fields.firstName == Some(firstName) ==> r == Some(t.rows[i])
  {
    match FindFirst(t.rows, (c: Contact) => c.fields.firstName == Some(firstName))
    case Some(i) => Some(t.rows[i])
    case None => None
  }

  /** `DELETE FROM contact WHERE version = :version` */
  function DeleteContactsByVersion(t: ContactTable, v: string): (r: ContactTable)
    ensures r.nextId == t.nextId
    ensures Valid(t) ==> Valid(r)
    ensures forall c :: multiset(r.rows)[c] == if Tagged(c, v) then 0 else multiset(t.rows)[c]
  {
    UntaggedMultiset(t.rows, v);
    UntaggedKeepsValid(t, v);
    t.(rows := Untagged(t.rows, v))
  }

  /** `UPDATE contact SET company = NULL WHERE version = :version` */
  function ResetCompany(t: ContactTable, v: string): (r: ContactTable)
    ensures r.nextId == t.nextId && |r.rows| == |t.rows|
    ensures Valid(t) ==> Valid(r)
    ensures forall i :: 0 <= i < |t.rows| ==>
              r.rows[i].fields.company == if Tagged(t.rows[i], v) then None else t.rows[i].fields.company
    ensures forall i :: 0 <= i < |t.rows| ==>
              r.rows[i] == t.rows[i].(fields := t.rows[i].fields.(company := r.rows[i].fields.company))
  {
    t.(rows := UpdateTagged(t.rows, v, (c: Contact) => c.(fields := c.fields.(company := None))))
  }

  /** `UPDATE contact SET version = :newVersion WHERE version = :oldVersion` */
  function ResetVersion(t: ContactTable, oldVersion: string, newVersion: string): (r: ContactTable)
    ensures r.nextId == t.nextId && |r.rows| == |t.rows|
    ensures Valid(t) ==> Valid(r)
    ensures forall i :: 0 <= i < |t.rows| ==>
              r.rows[i].version == if Tagged(t.rows[i], oldVersion) then Some(newVersion) else t.rows[i].version
    ensures forall i :: 0 <= i < |t.rows| ==> r.rows[i] == t.rows[i].(version := r.rows[i].version)
    ensures oldVersion != newVersion ==> forall i :: 0 <= i < |r.rows| ==> !Tagged(r.rows[i], oldVersion)
  {
    t.(rows := UpdateTagged(t.rows, oldVersion, (c: Contact) => c.(version := Some(newVersion))))
  }

  /** Deleting by a version twice deletes no more than once. */
  lemma DeleteIdempotent(t: ContactTable, v: string)
    ensures DeleteContactsByVersion(DeleteContactsByVersion(t, v), v) == DeleteContactsByVersion(t, v)
  {
    UntaggedKeepsAll(Untagged(t.rows, v), v);
  }
}
