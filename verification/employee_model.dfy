/**
  The `employees` table and the statements the employee model issues against
  it (backend/src/models/employeeModel.js). Each statement is a function from
  the table before to the table after, together with what `RETURNING *`
  hands back. `CURRENT_TIMESTAMP` is the parameter `now`.
 */
module EmployeeModel {

  import opened Base
  import opened Seqs
  import opened Sorting
  import opened Strings
  import opened Tables

  /** One row of `employees`. */
  datatype Employee = Employee(
    id: Id,
    name: string,
    email: string,
    hireDate: string,
    currentStatus: string,
    statusUpdatedAt: Millis,
    createdAt: Millis,
    updatedAt: Millis)

  function IdOf(e: Employee): Id { e.id }

  /** The table: its rows in storage order, and the next value the `id`
      sequence will hand out. */
  datatype EmployeeTable = EmployeeTable(rows: seq<Employee>, nextId: Id)

  function EmailOf(e: Employee): string { e.email }

  /** The unique index on `email`, which the schema is assumed to declare. */
  predicate EmailsUnique(rows: seq<Employee>) {
    UniqueKeys(rows, EmailOf)
  }

  /** The table's integrity constraints: primary key, unique email, and
      every id already issued by the sequence. */
  predicate Valid(t: EmployeeTable) {
    && UniqueKeys(t.rows, IdOf)
    && EmailsUnique(t.rows)
    && forall i :: 0 <= i < |t.rows| ==> t.rows[i].id < t.nextId
  }

  /** The four columns `create` inserts. */
  datatype NewEmployee = NewEmployee(name: string, email: string, hireDate: string, currentStatus: string)

  /** The three columns `update` sets. */
  datatype EmployeeEdit = EmployeeEdit(name: string, email: string, hireDate: string)

  /** A statement's effect: the table afterwards and `result.rows[0]`
      (`None` when no row matched). */
  datatype Written = Written(table: EmployeeTable, row: Option<Employee>)

  /** A statement that can violate the unique index on `email`
      (SQLSTATE 23505), in which case no row is written. */
  datatype Checked = Stored(written: Written) | EmailTaken(table: EmployeeTable)

  /** Some row other than `id` already holds `email`. */
  predicate EmailHeldByOther(rows: seq<Employee>, email: string, id: Id) {
    exists i :: 0 <= i < |rows| && rows[i].email == email && rows[i].id != id
  }

  /** `ORDER BY created_at DESC`. */
  predicate CreatedNoEarlier(a: Employee, b: Employee) {
    a.createdAt >= b.createdAt
  }

  /** `ORDER BY name` (code-point collation). */
  predicate NameNotAfter(a: Employee, b: Employee) {
    !Lt(b.name, a.name)
  }

  /** `after` is `before` with the status columns set by `updateStatus` and
      every other column kept. */
  predicate StatusSet(before: Employee, after: Employee, status: string, now: Millis) {
    && after.id == before.id
    && after.name == before.name
    && after.email == before.email
    && after.hireDate == before.hireDate
    && after.createdAt == before.createdAt
    && after.currentStatus == status
    && after.statusUpdatedAt == now
    && after.updatedAt == now
  }

  /** `after` is `before` with the columns set by `update` and the status
      columns untouched. */
  predicate Edited(before: Employee, after: Employee, edit: EmployeeEdit, now: Millis) {
    && after.id == before.id
    && after.name == edit.name
    && after.email == edit.email
    && after.hireDate == edit.hireDate
    && after.createdAt == before.createdAt
    && after.currentStatus == before.currentStatus
    && after.statusUpdatedAt == before.statusUpdatedAt
    && after.updatedAt == now
  }

  /** `SELECT * FROM employees ORDER BY created_at DESC`: every row, newest
      first. */
  function GetAll(t: EmployeeTable): (r: seq<Employee>)
    ensures multiset(r) == multiset(t.rows)
    ensures SortedBy(r, CreatedNoEarlier)
  {
    assert TotalPreorder(CreatedNoEarlier);
    SortBy(t.rows, CreatedNoEarlier)
  }

  /** `SELECT * FROM employees WHERE id = $1`. */
  function GetById(t: EmployeeTable, id: Id): (r: Option<Employee>)
    ensures r.Some? <==> HasKey(t.rows, IdOf, id)
    ensures r.Some? ==> r.value in t.rows && r.value.id == id
    ensures Valid(t) ==> forall i :: 0 <= i < |t.rows| && t.rows[i].id == id ==> r == Some(t.rows[i])
  {
    Lookup(t.rows, IdOf, id)
  }

  /** `INSERT INTO employees (name, email, hire_date, current_status) …
      RETURNING *`. The id comes from the sequence, which advances even when
      the insert then fails on the unique email index; the three timestamps
      take their default, assumed to be the statement time. */
  function Create(t: EmployeeTable, data: NewEmployee, now: Millis): (r: Checked)
    ensures r.EmailTaken? <==> EmailHeldByOther(t.rows, data.email, t.nextId)
    ensures r.EmailTaken? ==> r.table.rows == t.rows
    ensures r.Stored? ==> r.written.row.Some?
    ensures r.Stored? ==>
      var e := r.written.row.value;
      && r.written.table.rows == t.rows + [e]
      && e.name == data.name && e.email == data.email && e.hireDate == data.hireDate
      && e.currentStatus == data.currentStatus
      && e.statusUpdatedAt == now && e.createdAt == now && e.updatedAt == now
    ensures Valid(t) && r.Stored? ==> !HasKey(t.rows, IdOf, r.written.row.value.id)
    ensures Valid(t) && r.Stored? ==> Valid(r.written.table)
    ensures Valid(t) && r.EmailTaken? ==> Valid(r.table)
  {
    if EmailHeldByOther(t.rows, data.email, t.nextId) then
      EmailTaken(t.(nextId := t.nextId + 1))
    else
      var e := Employee(t.nextId, data.name, data.email, data.hireDate, data.currentStatus, now, now, now);
      Stored(Written(EmployeeTable(t.rows + [e], t.nextId + 1), Some(e)))
  }

  /** `UPDATE employees SET current_status = $1, status_updated_at = now,
      updated_at = now WHERE id = $2 RETURNING *`. */
  function UpdateStatus(t: EmployeeTable, id: Id, status: string, now: Millis): (r: Written)
    ensures r.table.nextId == t.nextId
    ensures |r.table.rows| == |t.rows|
    ensures forall i :: 0 <= i < |t.rows| && t.rows[i].id == id ==> StatusSet(t.rows[i], r.table.rows[i], status, now)
    ensures forall i :: 0 <= i < |t.rows| && t.rows[i].id != id ==> r.table.rows[i] == t.rows[i]
    ensures r.row.Some? <==> HasKey(t.rows, IdOf, id)
    ensures r.row.Some? ==> r.row.value in r.table.rows && r.row.value.id == id
    ensures r.row.Some? ==> r.row.value.currentStatus == status && r.row.value.statusUpdatedAt == now
    ensures Valid(t) ==> Valid(r.table)
  {
    var rows := ReplaceWhere(t.rows, IdOf, id, SetStatus(status, now));
    assert forall i :: 0 <= i < |t.rows| ==> rows[i].id == t.rows[i].id && rows[i].email == t.rows[i].email;
    SameKeysAndEmails(t, rows);
    var row := Lookup(rows, IdOf, id);
    assert row.Some? ==> row.value.currentStatus == status && row.value.statusUpdatedAt == now by {
      if row.Some? {
        var i :| 0 <= i < |rows| && rows[i] == row.value;
      }
    }
    Written(EmployeeTable(rows, t.nextId), row)
  }

  /** The rewrite `updateStatus` applies to the matching row. */
  function SetStatus(status: string, now: Millis): Employee -> Employee {
    (e: Employee) => e.(currentStatus := status, statusUpdatedAt := now, updatedAt := now)
  }

  /** Rewriting rows in place without touching ids or emails keeps the
      table's constraints and its set of ids. */
  lemma SameKeysAndEmails(t: EmployeeTable, rows: seq<Employee>)
    requires |rows| == |t.rows|
    requires forall i :: 0 <= i < |t.rows| ==> rows[i].id == t.rows[i].id && rows[i].email == t.rows[i].email
    ensures forall k :: HasKey(rows, IdOf, k) <==> HasKey(t.rows, IdOf, k)
    ensures Valid(t) ==> Valid(EmployeeTable(rows, t.nextId))
  {
  }

  /** `UPDATE employees SET name = $1, email = $2, hire_date = $3,
      updated_at = now WHERE id = $4 RETURNING *`. No row matches an unknown
      id, so no constraint can fire then; otherwise an email held by another
      row violates the unique index. */
  function Update(t: EmployeeTable, id: Id, edit: EmployeeEdit, now: Millis): (r: Checked)
    ensures r.EmailTaken? <==> HasKey(t.rows, IdOf, id) && EmailHeldByOther(t.rows, edit.email, id)
    ensures r.EmailTaken? ==> r.table == t
    ensures r.Stored? ==> r.written.table.nextId == t.nextId && |r.written.table.rows| == |t.rows|
    ensures r.Stored? ==> forall i :: 0 <= i < |t.rows| && t.rows[i].id == id ==> Edited(t.rows[i], r.written.table.rows[i], edit, now)
    ensures r.Stored? ==> forall i :: 0 <= i < |t.rows| && t.rows[i].id != id ==> r.written.table.rows[i] == t.rows[i]
    ensures r.Stored? ==> forall i :: 0 <= i < |t.rows| ==> r.written.table.rows[i].id == t.rows[i].id
    ensures r.Stored? ==> (r.written.row.Some? <==> HasKey(t.rows, IdOf, id))
    ensures r.Stored? && r.written.row.Some? ==> r.written.row.value in r.written.table.rows && r.written.row.value.id == id
    ensures Valid(t) && r.Stored? ==> Valid(r.written.table)
  {
    if !HasKey(t.rows, IdOf, id) then
      assert forall i :: 0 <= i < |t.rows| ==> t.rows[i].id != id;
      Stored(Written(t, None))
    else if EmailHeldByOther(t.rows, edit.email, id) then
      EmailTaken(t)
    else
      var f := (e: Employee) => e.(name := edit.name, email := edit.email, hireDate := edit.hireDate, updatedAt := now);
      var rows := ReplaceWhere(t.rows, IdOf, id, f);
      assert forall i :: 0 <= i < |t.rows| ==> rows[i].id == t.rows[i].id;
      Stored(Written(EmployeeTable(rows, t.nextId), Lookup(rows, IdOf, id)))
  }

  /** `DELETE FROM employees WHERE id = $1 RETURNING *`. */
  function Delete(t: EmployeeTable, id: Id): (r: Written)
    ensures r.table.nextId == t.nextId
    ensures r.row.Some? <==> HasKey(t.rows, IdOf, id)
    ensures r.row.Some? ==> r.row.value in t.rows && r.row.value.id == id
    ensures forall e :: e in r.table.rows <==> e in t.rows && e.id != id
    ensures Subsequence(r.table.rows, t.rows)
    ensures Valid(t) && HasKey(t.rows, IdOf, id) ==> |r.table.rows| == |t.rows| - 1
    ensures Valid(t) ==> Valid(r.table)
  {
    var rows := RemoveWhere(t.rows, IdOf, id);
    RemovalKeepsValid(t, id);
    Written(EmployeeTable(rows, t.nextId), Lookup(t.rows, IdOf, id))
  }

  /** Removing the rows with one id keeps the table's constraints. */
  lemma RemovalKeepsValid(t: EmployeeTable, id: Id)
    ensures Valid(t) ==> Valid(EmployeeTable(RemoveWhere(t.rows, IdOf, id), t.nextId))
  {
    if Valid(t) {
      var rows := RemoveWhere(t.rows, IdOf, id);
      SubsequenceKeepsKeys(rows, t.rows, IdOf);
      SubsequenceKeepsKeys(rows, t.rows, EmailOf);
      SubsequenceMembers(rows, t.rows);
    }
  }

  /** The employees whose name contains `term`, ignoring case. */
  function NameContains(term: string): Employee -> bool {
    (e: Employee) => Contains(ToLower(e.name), ToLower(term))
  }

  /** `SELECT * FROM employees WHERE name ILIKE '%term%' ORDER BY name`:
      the employees whose name contains the term, ignoring case, in name
      order. */
  function SearchByName(t: EmployeeTable, term: string): (r: seq<Employee>)
    ensures forall e :: e in r <==> e in t.rows && Contains(ToLower(e.name), ToLower(term))
    ensures |r| == Count(NameContains(term), t.rows)
    ensures SortedBy(r, NameNotAfter)
  {
    var matches := Filter(NameContains(term), t.rows);
    FilterLength(NameContains(term), t.rows);
    NameOrderIsTotal();
    var r := SortBy(matches, NameNotAfter);
    SortByMembers(matches, NameNotAfter);
    r
  }

  /** Name order is a total preorder, so it can drive `SortBy`. */
  lemma NameOrderIsTotal()
    ensures TotalPreorder(NameNotAfter)
  {
    forall a: Employee, b: Employee
      ensures NameNotAfter(a, b) || NameNotAfter(b, a)
    {
      if Lt(a.name, b.name) && Lt(b.name, a.name) {
        LtTransitive(a.name, b.name, a.name);
        LtIrreflexive(a.name);
      }
    }
    forall a: Employee, b: Employee, c: Employee | NameNotAfter(a, b) && NameNotAfter(b, c)
      ensures NameNotAfter(a, c)
    {
      LtTrichotomous(a.name, b.name);
      if Lt(c.name, a.name) && Lt(a.name, b.name) {
        LtTransitive(c.name, a.name, b.name);
      }
    }
  }

  /** After `updateStatus` on an existing employee, reading that employee
      back yields exactly the row the update returned, carrying the new
      status and timestamp. */
  lemma UpdateStatusThenGet(t: EmployeeTable, id: Id, status: string, now: Millis)
    requires Valid(t) && HasKey(t.rows, IdOf, id)
    ensures GetById(UpdateStatus(t, id, status, now).table, id) == UpdateStatus(t, id, status, now).row
    ensures GetById(UpdateStatus(t, id, status, now).table, id).Some?
    ensures GetById(UpdateStatus(t, id, status, now).table, id).value.currentStatus == status
  {
    var r := UpdateStatus(t, id, status, now);
    var k :| 0 <= k < |r.table.rows| && r.table.rows[k] == r.row.value;
  }

  /** Repeating an identical `updateStatus` in the same instant leaves the
      table as the first one left it. */
  lemma UpdateStatusIdempotent(t: EmployeeTable, id: Id, status: string, now: Millis)
    ensures UpdateStatus(UpdateStatus(t, id, status, now).table, id, status, now).table
         == UpdateStatus(t, id, status, now).table
  {
    var once := UpdateStatus(t, id, status, now).table;
    var twice := UpdateStatus(once, id, status, now).table;
    assert twice.rows == once.rows by {
      forall i | 0 <= i < |once.rows|
        ensures twice.rows[i] == once.rows[i]
      {
        if t.rows[i].id == id {
          assert StatusSet(once.rows[i], twice.rows[i], status, now);
        }
      }
    }
  }

  /** After `delete`, the employee is gone and every other employee reads
      back as before. */
  lemma DeleteThenGet(t: EmployeeTable, id: Id, other: Id)
    requires Valid(t) && other != id
    ensures GetById(Delete(t, id).table, id).None?
    ensures GetById(Delete(t, id).table, other) == GetById(t, other)
  {
    var after := Delete(t, id).table;
    var before := GetById(t, other);
    var now := GetById(after, other);
    if now.Some? {
      assert now.value in t.rows;
      var i :| 0 <= i < |t.rows| && t.rows[i] == now.value;
    }
    if before.Some? {
      assert before.value in after.rows;
      var i :| 0 <= i < |after.rows| && after.rows[i] == before.value;
    }
  }

  /** A row `create` inserts can be read back by its new id. */
  lemma CreateThenGet(t: EmployeeTable, data: NewEmployee, now: Millis)
    requires Valid(t)
    requires Create(t, data, now).Stored?
    ensures GetById(Create(t, data, now).written.table, t.nextId) == Create(t, data, now).written.row
  {
    var w := Create(t, data, now).written;
    assert w.table.rows[|t.rows|] == w.row.value;
  }
}
