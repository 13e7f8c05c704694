/**
  The `notes` table and the statements the note model issues against it
  (backend/src/models/noteModel.js). `CURRENT_TIMESTAMP` is the parameter
  `now`.
 */
module NoteModel {

  import opened Base
  import opened Seqs
  import opened Sorting
  import opened Tables

  /** One row of `notes`. */
  datatype Note = Note(id: Id, employeeId: Id, content: string, createdAt: Millis, updatedAt: Millis)

  function IdOf(n: Note): Id { n.id }

  /** The table: its rows in storage order and the next id the sequence
      hands out. */
  datatype NoteTable = NoteTable(rows: seq<Note>, nextId: Id)

  /** Primary key, and every id already issued by the sequence. */
  predicate Valid(t: NoteTable) {
    && UniqueKeys(t.rows, IdOf)
    && forall i :: 0 <= i < |t.rows| ==> t.rows[i].id < t.nextId
  }

  /** A statement's effect: the table afterwards and `result.rows[0]`. */
  datatype Written = Written(table: NoteTable, row: Option<Note>)

  /** `ORDER BY created_at DESC`. */
  predicate CreatedNoEarlier(a: Note, b: Note) {
    a.createdAt >= b.createdAt
  }

  /** `ORDER BY employee_id` on rows that hold one note per employee. */
  predicate EmployeeBefore(a: Note, b: Note) {
    a.employeeId < b.employeeId
  }

  function EmployeeOf(n: Note): Id { n.employeeId }

  predicate IntLt(a: int, b: int) { a < b }

  /** `WHERE employee_id = $1`. */
  function NoteOf(employeeId: Id): Note -> bool {
    (n: Note) => n.employeeId == employeeId
  }

  /** `SELECT * FROM notes WHERE employee_id = $1 ORDER BY created_at DESC`. */
  function GetByEmployeeId(t: NoteTable, employeeId: Id): (r: seq<Note>)
    ensures forall n :: n in r <==> n in t.rows && n.employeeId == employeeId
    ensures multiset(r) == multiset(Filter(NoteOf(employeeId), t.rows))
    ensures |r| == Count(NoteOf(employeeId), t.rows)
    ensures SortedBy(r, CreatedNoEarlier)
  {
    var mine := Filter(NoteOf(employeeId), t.rows);
    FilterLength(NoteOf(employeeId), t.rows);
    assert TotalPreorder(CreatedNoEarlier);
    SortByMembers(mine, CreatedNoEarlier);
    SortBy(mine, CreatedNoEarlier)
  }

  /** The note of `employeeId` with the greatest `created_at`, if the
      employee has any note; among equal timestamps the earliest stored. */
  function LatestOf(rows: seq<Note>, employeeId: Id): (r: Option<Note>)
    ensures r.Some? <==> exists n :: n in rows && n.employeeId == employeeId
    ensures r.Some? ==> r.value in rows && r.value.employeeId == employeeId
    ensures r.Some? ==> forall n :: n in rows && n.employeeId == employeeId ==> n.createdAt <= r.value.createdAt
    decreases |rows|
  {
    if |rows| == 0 then None
    else
      var rest := LatestOf(rows[1..], employeeId);
      assert forall n :: n in rows ==> n == rows[0] || n in rows[1..];
      if rows[0].employeeId != employeeId then rest
      else if rest.None? || rows[0].createdAt >= rest.value.createdAt then Some(rows[0])
      else rest
  }

  /** The latest note of each employee listed in `ids`, in the order of
      `ids`. */
  function LatestFor(rows: seq<Note>, ids: seq<Id>): (r: seq<Note>)
    requires forall id :: id in ids ==> exists n :: n in rows && n.employeeId == id
    ensures |r| == |ids|
    ensures forall i :: 0 <= i < |ids| ==> Some(r[i]) == LatestOf(rows, ids[i])
    ensures forall i :: 0 <= i < |ids| ==> r[i] in rows && r[i].employeeId == ids[i]
    decreases |ids|
  {
    if |ids| == 0 then []
    else
      assert ids[0] in ids;
      assert forall id :: id in ids[1..] ==> id in ids;
      [LatestOf(rows, ids[0]).value] + LatestFor(rows, ids[1..])
  }

  /** `SELECT DISTINCT ON (employee_id) … ORDER BY employee_id, created_at
      DESC`: one note per employee that has notes, the one with the greatest
      `created_at`, in increasing employee order. */
  function GetLatestForAllEmployees(t: NoteTable): (r: seq<Note>)
    ensures StrictlySortedBy(r, EmployeeBefore)
    ensures LatestPerEmployee(r, t.rows)
  {
    var ids := EmployeesWithNotes(t.rows);
    LatestForProperties(t.rows, ids);
    LatestFor(t.rows, ids)
  }

  /** `r` holds notes of `rows`, at least one for every employee with a
      note, and none older than another note of the same employee. */
  predicate LatestPerEmployee(r: seq<Note>, rows: seq<Note>) {
    && (forall n :: n in r ==> n in rows)
    && (forall n :: n in rows ==> exists m :: m in r && m.employeeId == n.employeeId)
    && (forall m, n :: m in r && n in rows && n.employeeId == m.employeeId ==> n.createdAt <= m.createdAt)
  }

  /** The distinct `employee_id` values of `rows`, increasing. */
  function EmployeesWithNotes(rows: seq<Note>): (ids: seq<Id>)
    ensures StrictlySortedBy(ids, IntLt)
    ensures forall id :: id in ids <==> exists n :: n in rows && n.employeeId == id
  {
    assert StrictTotalOrder(IntLt);
    MapMembers(EmployeeOf, rows);
    SortedDistinct(Map(EmployeeOf, rows), IntLt)
  }

  lemma LatestForProperties(rows: seq<Note>, ids: seq<Id>)
    requires ids == EmployeesWithNotes(rows)
    ensures forall id :: id in ids ==> exists n :: n in rows && n.employeeId == id
    ensures StrictlySortedBy(LatestFor(rows, ids), EmployeeBefore)
    ensures LatestPerEmployee(LatestFor(rows, ids), rows)
  {
    LatestForSorted(rows, ids);
    LatestForCovers(rows, ids);
    LatestForIsLatest(rows, ids);
  }

  lemma LatestForSorted(rows: seq<Note>, ids: seq<Id>)
    requires ids == EmployeesWithNotes(rows)
    ensures StrictlySortedBy(LatestFor(rows, ids), EmployeeBefore)
  {
    var r := LatestFor(rows, ids);
    forall i, j | 0 <= i < j < |r|
      ensures EmployeeBefore(r[i], r[j])
    {
      assert IntLt(ids[i], ids[j]);
    }
  }

  lemma LatestForCovers(rows: seq<Note>, ids: seq<Id>)
    requires ids == EmployeesWithNotes(rows)
    ensures forall n :: n in rows ==> exists m :: m in LatestFor(rows, ids) && m.employeeId == n.employeeId
  {
    var r := LatestFor(rows, ids);
    forall n | n in rows
      ensures exists m :: m in r && m.employeeId == n.employeeId
    {
      assert n.employeeId in ids;
      var i :| 0 <= i < |ids| && ids[i] == n.employeeId;
      assert r[i] in r;
    }
  }

  lemma LatestForIsLatest(rows: seq<Note>, ids: seq<Id>)
    requires ids == EmployeesWithNotes(rows)
    ensures forall m, n :: m in LatestFor(rows, ids) && n in rows && n.employeeId == m.employeeId ==> n.createdAt <= m.createdAt
  {
    var r := LatestFor(rows, ids);
    forall m, n | m in r && n in rows && n.employeeId == m.employeeId
      ensures n.createdAt <= m.createdAt
    {
      var i :| 0 <= i < |r| && r[i] == m;
      assert Some(m) == LatestOf(rows, ids[i]);
    }
  }

  /** `INSERT INTO notes (employee_id, content) VALUES ($1, $2) RETURNING *`;
      both timestamps take their default, assumed to be the statement time. */
  function Create(t: NoteTable, employeeId: Id, content: string, now: Millis): (r: Written)
    ensures r.row.Some?
    ensures r.table.rows == t.rows + [r.row.value]
    ensures r.row.value.employeeId == employeeId && r.row.value.content == content
    ensures r.row.value.createdAt == now && r.row.value.updatedAt == now
    ensures Valid(t) ==> !HasKey(t.rows, IdOf, r.row.value.id) && Valid(r.table)
  {
    var n := Note(t.nextId, employeeId, content, now, now);
    Written(NoteTable(t.rows + [n], t.nextId + 1), Some(n))
  }

  /** `UPDATE notes SET content = $1, updated_at = now WHERE id = $2
      RETURNING *`. */
  function Update(t: NoteTable, id: Id, content: string, now: Millis): (r: Written)
    ensures r.table.nextId == t.nextId && |r.table.rows| == |t.rows|
    ensures forall i :: 0 <= i < |t.rows| && t.rows[i].id == id ==>
      r.table.rows[i] == Note(id, t.rows[i].employeeId, content, t.rows[i].createdAt, now)
    ensures forall i :: 0 <= i < |t.rows| && t.rows[i].id != id ==> r.table.rows[i] == t.rows[i]
    ensures r.row.Some? <==> HasKey(t.rows, IdOf, id)
    ensures r.row.Some? ==> r.row.value in r.table.rows && r.row.value.id == id && r.row.value.content == content
    ensures Valid(t) ==> Valid(r.table)
  {
    var rows := ReplaceWhere(t.rows, IdOf, id, (n: Note) => n.(content := content, updatedAt := now));
    assert forall i :: 0 <= i < |t.rows| ==> rows[i].id == t.rows[i].id;
    var row := Lookup(rows, IdOf, id);
    assert row.Some? ==> row.value.content == content by {
      if row.Some? {
        var i :| 0 <= i < |rows| && rows[i] == row.value;
      }
    }
    Written(NoteTable(rows, t.nextId), row)
  }

  /** `DELETE FROM notes WHERE id = $1 RETURNING *`. */
  function Delete(t: NoteTable, id: Id): (r: Written)
    ensures r.table.nextId == t.nextId
    ensures r.row.Some? <==> HasKey(t.rows, IdOf, id)
    ensures r.row.Some? ==> r.row.value in t.rows && r.row.value.id == id
    ensures forall n :: n in r.table.rows <==> n in t.rows && n.id != id
    ensures Subsequence(r.table.rows, t.rows)
    ensures Valid(t) && HasKey(t.rows, IdOf, id) ==> |r.table.rows| == |t.rows| - 1
    ensures Valid(t) ==> Valid(r.table)
  {
    var rows := RemoveWhere(t.rows, IdOf, id);
    assert Valid(t) ==> Valid(NoteTable(rows, t.nextId)) by {
      if Valid(t) {
        SubsequenceKeepsKeys(rows, t.rows, IdOf);
        SubsequenceMembers(rows, t.rows);
      }
    }
    Written(NoteTable(rows, t.nextId), Lookup(t.rows, IdOf, id))
  }

  /** `SELECT * FROM notes WHERE id = $1`. */
  function GetById(t: NoteTable, id: Id): (r: Option<Note>)
    ensures r.None? <==> forall n :: n in t.rows ==> n.id != id
    ensures r.Some? ==> r.value in t.rows && r.value.id == id
    ensures Valid(t) ==> forall n :: n in t.rows && n.id == id ==> r == Some(n)
  {
    Lookup(t.rows, IdOf, id)
  }

  /** A note created strictly after every stored note becomes its
      employee's latest note, the one the latest-note query reports. */
  lemma CreatedNoteIsLatest(t: NoteTable, employeeId: Id, content: string, now: Millis)
    requires forall n :: n in t.rows ==> n.createdAt < now
    ensures LatestOf(Create(t, employeeId, content, now).table.rows, employeeId) == Create(t, employeeId, content, now).row
  {
    var w := Create(t, employeeId, content, now);
    var latest := LatestOf(w.table.rows, employeeId);
    assert w.row.value in w.table.rows;
    assert latest.value.createdAt >= now;
  }
}
