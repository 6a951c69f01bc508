/**
 * The target relational store, common to the users, course and contact tables: rows carry
 * a store-generated primary key and the version tag of the job that last wrote them
 * (the Migrable part of every entity), plus the entity's own columns `F`.
 */
module Store {
  import opened Wrappers

  /** A row of a target table; `id` is absent until the entity is first saved. */
  datatype Record<F> = Record(id: Option<nat>, version: Option<string>, fields: F)

  /** A target table: its rows and the next value of its identity sequence. */
  datatype Table<F> = Table(rows: seq<Record<F>>, nextId: nat)

  /**
   * The SQL condition `version = :v` for a non-null `v`: a row whose version is NULL
   * matches no version at all.
   */
  predicate Tagged<F>(x: Record<F>, v: string) {
    x.version == Some(v)
  }

  predicate HasId<F>(rows: seq<Record<F>>, id: nat) {
    exists i :: 0 <= i < |rows| && rows[i].id == Some(id)
  }

  /**
   * The identity column as the store keeps it: every stored row has an id below the
   * next sequence value, and no two rows share an id.
   */
  predicate Valid<F>(t: Table<F>) {
    && (forall i :: 0 <= i < |t.rows| ==> t.rows[i].id.Some? && t.rows[i].id.value < t.nextId)
    && (forall i, j :: 0 <= i < j < |t.rows| ==> t.rows[i].id != t.rows[j].id)
  }

  function ReplaceById<F>(rows: seq<Record<F>>, e: Record<F>): (r: seq<Record<F>>)
    ensures |r| == |rows|
    ensures forall i :: 0 <= i < |rows| ==> r[i] == if rows[i].id == e.id then e else rows[i]
  {
    if |rows| == 0 then []
    else [if rows[0].id == e.id then e else rows[0]] + ReplaceById(rows[1..], e)
  }

  /**
   * JpaRepository.save: an entity without id is inserted with the next identity value;
   * an entity with the id of a stored row replaces that row in place.
   */
  function Save<F>(t: Table<F>, e: Record<F>): (r: Table<F>)
    requires e.id.None? || HasId(t.rows, e.id.value)
    ensures e.id.None? ==> r == Table(t.rows + [e.(id := Some(t.nextId))], t.nextId + 1)
    ensures e.id.Some? ==>
              && r.nextId == t.nextId
              && |r.rows| == |t.rows|
              && forall i :: 0 <= i < |t.rows| ==>
                   r.rows[i] == if t.rows[i].id == e.id then e else t.rows[i]
    ensures Valid(t) ==> Valid(r)
  {
    if e.id.None? then Table(t.rows + [e.(id := Some(t.nextId))], t.nextId + 1)
    else Table(ReplaceById(t.rows, e), t.nextId)
  }

  /** Saving an entity that carries the id of row j rewrites row j and nothing else. */
  lemma SaveReplacesRow<F>(t: Table<F>, j: nat, e: Record<F>)
    requires Valid(t) && j < |t.rows| && e.id == t.rows[j].id
    ensures Save(t, e) == Table(t.rows[j := e], t.nextId)
  {
    var r := Save(t, e);
    forall i | 0 <= i < |t.rows|
      ensures r.rows[i] == t.rows[j := e][i]
    {
      if i != j {
        assert t.rows[i].id != t.rows[j].id by {
          if i < j {} else {}
        }
      }
    }
  }

  /** Index of the first row satisfying `p`, if any. */
  function FindFirst<F>(rows: seq<Record<F>>, p: Record<F> -> bool): (r: Option<nat>)
    ensures r.Some? ==> r.value < |rows| && p(rows[r.value])
    ensures r.None? ==> forall i :: 0 <= i < |rows| ==> !p(rows[i])
  {
    if |rows| == 0 then None
    else if p(rows[0]) then Some(0)
    else match FindFirst(rows[1..], p)
      case Some(i) => Some(i + 1)
      case None => None
  }

  /** `DELETE ... WHERE version = :v`: the rows that survive, in their order. */
  function Untagged<F>(rows: seq<Record<F>>, v: string): (r: seq<Record<F>>)
    ensures |r| <= |rows|
    ensures forall i :: 0 <= i < |r| ==> r[i] in rows && !Tagged(r[i], v)
    ensures forall i :: 0 <= i < |rows| && !Tagged(rows[i], v) ==> rows[i] in r
  {
    if |rows| == 0 then []
    else (if Tagged(rows[0], v) then [] else [rows[0]]) + Untagged(rows[1..], v)
  }

  /** The delete keeps every untagged row as often as it occurred, and no tagged one. */
  lemma {:induction false} UntaggedMultiset<F(!new)>(rows: seq<Record<F>>, v: string)
    ensures forall x :: multiset(Untagged(rows, v))[x] == if Tagged(x, v) then 0 else multiset(rows)[x]
  {
    if |rows| > 0 {
      UntaggedMultiset(rows[1..], v);
      assert rows == [rows[0]] + rows[1..];
    }
  }

  /** `UPDATE ... SET ... WHERE version = :v`: `f` applied to the matching rows only. */
  function UpdateTagged<F>(rows: seq<Record<F>>, v: string, f: Record<F> -> Record<F>): (r: seq<Record<F>>)
    ensures |r| == |rows|
    ensures forall i :: 0 <= i < |rows| ==> r[i] == if Tagged(rows[i], v) then f(rows[i]) else rows[i]
  {
    if |rows| == 0 then []
    else [if Tagged(rows[0], v) then f(rows[0]) else rows[0]] + UpdateTagged(rows[1..], v, f)
  }

  /** Rows appended with the next identity values, in order, keep the primary key. */
  lemma AppendFreshKeepsValid<F>(t: Table<F>, added: seq<Record<F>>)
    requires forall i :: 0 <= i < |added| ==> added[i].id == Some(t.nextId + i)
    ensures Valid(t) ==> Valid(Table(t.rows + added, t.nextId + |added|))
  {
  }

  /** A row with a fresh id, put in front of rows that keep the primary key, keeps it too. */
  lemma ConsKeepsValid<F>(x: Record<F>, rest: seq<Record<F>>, n: nat)
    requires Valid(Table(rest, n)) && x.id.Some? && x.id.value < n
    requires forall j :: 0 <= j < |rest| ==> rest[j].id != x.id
    ensures Valid(Table([x] + rest, n))
  {
    var u := [x] + rest;
    forall i, j | 0 <= i < j < |u|
      ensures u[i].id != u[j].id
    {
      assert u[j] == rest[j - 1];
      if i > 0 {
        assert u[i] == rest[i - 1];
      }
    }
  }

  /** A delete by version keeps the primary key: the surviving rows are rows of the table. */
  lemma {:induction false} UntaggedKeepsValid<F>(t: Table<F>, v: string)
    ensures Valid(t) ==> Valid(Table(Untagged(t.rows, v), t.nextId))
    decreases |t.rows|
  {
    if Valid(t) && |t.rows| > 0 {
      var tail := Table(t.rows[1..], t.nextId);
      assert Valid(tail);
      UntaggedKeepsValid(tail, v);
      var rest := Untagged(tail.rows, v);
      if !Tagged(t.rows[0], v) {
        forall j | 0 <= j < |rest|
          ensures rest[j].id != t.rows[0].id
        {
          var k :| 0 <= k < |tail.rows| && tail.rows[k] == rest[j];
          assert t.rows[k + 1] == rest[j];
        }
        ConsKeepsValid(t.rows[0], rest, t.nextId);
      }
    }
  }

  /** A delete by version leaves a table without that tag as it is. */
  lemma {:induction false} UntaggedKeepsAll<F>(rows: seq<Record<F>>, v: string)
    requires forall i :: 0 <= i < |rows| ==> !Tagged(rows[i], v)
    ensures Untagged(rows, v) == rows
  {
    if |rows| > 0 {
      UntaggedKeepsAll(rows[1..], v);
      assert rows == [rows[0]] + rows[1..];
    }
  }

  /** A delete by version empties a table whose every row carries that tag. */
  lemma {:induction false} UntaggedDropsAll<F>(rows: seq<Record<F>>, v: string)
    requires forall i :: 0 <= i < |rows| ==> Tagged(rows[i], v)
    ensures Untagged(rows, v) == []
  {
    if |rows| > 0 {
      UntaggedDropsAll(rows[1..], v);
    }
  }

  /** Concatenation is associative; kept apart so the step is proved without the rows' facts in scope. */
  lemma ConcatAssoc<T>(x: seq<T>, y: seq<T>, z: seq<T>)
    ensures x + (y + z) == (x + y) + z
  {
  }

  /** A delete by version decides the first row on its own and goes on with the rest. */
  lemma UntaggedCons<F>(h: Record<F>, rest: seq<Record<F>>, v: string)
    ensures Untagged([h] + rest, v) == (if Tagged(h, v) then [] else [h]) + Untagged(rest, v)
  {
    assert ([h] + rest)[0] == h;
    assert ([h] + rest)[1..] == rest;
  }

  /** A delete by version acts on a concatenation part by part. */
  lemma {:induction false} UntaggedAppend<F>(a: seq<Record<F>>, b: seq<Record<F>>, v: string)
    ensures Untagged(a + b, v) == Untagged(a, v) + Untagged(b, v)
  {
    if |a| == 0 {
      assert a + b == b;
    } else {
      var head := if Tagged(a[0], v) then [] else [a[0]];
      assert a == [a[0]] + a[1..];
      assert a + b == [a[0]] + (a[1..] + b);
      UntaggedCons(a[0], a[1..] + b, v);
      UntaggedCons(a[0], a[1..], v);
      UntaggedAppend(a[1..], b, v);
      ConcatAssoc(head, Untagged(a[1..], v), Untagged(b, v));
    }
  }

  /** Deleting the rows tagged v that were appended after rows not tagged v restores those rows. */
  lemma UntaggedRemovesAppended<F>(a: seq<Record<F>>, b: seq<Record<F>>, v: string)
    requires forall i :: 0 <= i < |a| ==> !Tagged(a[i], v)
    requires forall i :: 0 <= i < |b| ==> Tagged(b[i], v)
    ensures Untagged(a + b, v) == a
  {
    UntaggedAppend(a, b, v);
    UntaggedKeepsAll(a, v);
    UntaggedDropsAll(b, v);
  }
}
