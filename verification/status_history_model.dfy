/**
  The `status_history` ledger and the row-level queries of the status
  history model (backend/src/models/statusHistoryModel.js): one employee's
  history, the whole ledger joined with the employees, appending a record,
  and the employees who have sat in a stage for at least some number of
  days. `CURRENT_TIMESTAMP` is the parameter `now`.

  No statement of the employee model appends to this ledger, so nothing
  here assumes that the ledger agrees with the employees' current status.
 */
module StatusHistoryModel {

  import opened Base
  import opened Seqs
  import opened Sorting
  import opened Tables
  import EmployeeModel

  type Employee = EmployeeModel.Employee

  /** One row of `status_history`. */
  datatype HistoryRecord = HistoryRecord(
    id: Id,
    employeeId: Id,
    status: string,
    changedAt: Millis,
    notes: Option<string>)

  function RecordId(h: HistoryRecord): Id { h.id }

  /** The ledger: its records in storage order and the next id the sequence
      hands out. */
  datatype Ledger = Ledger(records: seq<HistoryRecord>, nextId: Id)

  /** Primary key, and every id already issued by the sequence. */
  predicate Valid(l: Ledger) {
    && UniqueKeys(l.records, RecordId)
    && forall i :: 0 <= i < |l.records| ==> l.records[i].id < l.nextId
  }

  /** `WHERE employee_id = $1`. */
  function OfEmployee(employeeId: Id): HistoryRecord -> bool {
    (h: HistoryRecord) => h.employeeId == employeeId
  }

  /** `ORDER BY changed_at DESC`. */
  predicate ChangedNoEarlier(a: HistoryRecord, b: HistoryRecord) {
    a.changedAt >= b.changedAt
  }

  /** `SELECT * FROM status_history WHERE employee_id = $1 ORDER BY
      changed_at DESC`: exactly that employee's records, newest first. */
  function GetByEmployeeId(l: Ledger, employeeId: Id): (r: seq<HistoryRecord>)
    ensures forall h :: h in r <==> h in l.records && h.employeeId == employeeId
    ensures multiset(r) == multiset(Filter(OfEmployee(employeeId), l.records))
    ensures SortedBy(r, ChangedNoEarlier)
  {
    var mine := Filter(OfEmployee(employeeId), l.records);
    assert TotalPreorder(ChangedNoEarlier);
    SortByMembers(mine, ChangedNoEarlier);
    SortBy(mine, ChangedNoEarlier)
  }

  /** A history record with the name and email of its employee
      (`SELECT sh.*, e.name, e.email`). */
  datatype JoinedRecord = JoinedRecord(record: HistoryRecord, name: string, email: string)

  /** The record's employee still exists (`JOIN employees e ON
      sh.employee_id = e.id`). */
  function EmployeeExists(employees: seq<Employee>): HistoryRecord -> bool {
    (h: HistoryRecord) => HasKey(employees, EmployeeModel.IdOf, h.employeeId)
  }

  /** `j` carries the name and email of an employee whose id is the
      record's `employee_id`. */
  predicate AnnotatedFrom(j: JoinedRecord, employees: seq<Employee>) {
    exists e :: e in employees && e.id == j.record.employeeId && e.name == j.name && e.email == j.email
  }

  /** The inner join in storage order. With `id` the primary key of
      `employees`, each record matches at most one employee. */
  function Join(records: seq<HistoryRecord>, employees: seq<Employee>): (r: seq<JoinedRecord>)
    ensures |r| == Count(EmployeeExists(employees), records)
    ensures forall j :: j in r ==> j.record in records && AnnotatedFrom(j, employees)
    ensures forall h :: h in records && HasKey(employees, EmployeeModel.IdOf, h.employeeId) ==>
      exists j :: j in r && j.record == h
    decreases |records|
  {
    if |records| == 0 then []
    else
      var rest := Join(records[1..], employees);
      var r := JoinHead(records, employees, rest);
      JoinStep(records, employees, rest, r);
      r
  }

  /** The row the join makes of the first record, if its employee
      exists, in front of the join of the rest. */
  function JoinHead(records: seq<HistoryRecord>, employees: seq<Employee>, rest: seq<JoinedRecord>): seq<JoinedRecord>
    requires |records| > 0
  {
    var e := Lookup(employees, EmployeeModel.IdOf, records[0].employeeId);
    if e.Some? then [JoinedRecord(records[0], e.value.name, e.value.email)] + rest else rest
  }

  /** One step of the join: the first record, annotated if its employee
      exists, in front of the join of the rest. */
  lemma JoinStep(records: seq<HistoryRecord>, employees: seq<Employee>, rest: seq<JoinedRecord>, r: seq<JoinedRecord>)
    requires |records| > 0
    requires |rest| == Count(EmployeeExists(employees), records[1..])
    requires forall j :: j in rest ==> j.record in records[1..] && AnnotatedFrom(j, employees)
    requires forall h :: h in records[1..] && HasKey(employees, EmployeeModel.IdOf, h.employeeId) ==>
      exists j :: j in rest && j.record == h
    requires r == JoinHead(records, employees, rest)
    ensures |r| == Count(EmployeeExists(employees), records)
    ensures forall j :: j in r ==> j.record in records && AnnotatedFrom(j, employees)
    ensures forall h :: h in records && HasKey(employees, EmployeeModel.IdOf, h.employeeId) ==>
      exists j :: j in r && j.record == h
  {
    JoinSoundStep(records, employees, rest, r);
    JoinCompleteStep(records, employees, rest, r);
  }

  /** Every row of one join step comes from a record and its employee. */
  lemma JoinSoundStep(records: seq<HistoryRecord>, employees: seq<Employee>, rest: seq<JoinedRecord>, r: seq<JoinedRecord>)
    requires |records| > 0
    requires forall j :: j in rest ==> j.record in records[1..] && AnnotatedFrom(j, employees)
    requires r == JoinHead(records, employees, rest)
    ensures forall j :: j in r ==> j.record in records && AnnotatedFrom(j, employees)
  {
    var e := Lookup(employees, EmployeeModel.IdOf, records[0].employeeId);
    assert forall h :: h in records[1..] ==> h in records;
    if e.Some? {
      var j := JoinedRecord(records[0], e.value.name, e.value.email);
      assert AnnotatedFrom(j, employees);
      assert forall x :: x in r ==> x == j || x in rest;
    }
  }

  /** One join step keeps a row for every record whose employee exists. */
  lemma JoinCompleteStep(records: seq<HistoryRecord>, employees: seq<Employee>, rest: seq<JoinedRecord>, r: seq<JoinedRecord>)
    requires |records| > 0
    requires forall h :: h in records[1..] && HasKey(employees, EmployeeModel.IdOf, h.employeeId) ==>
      exists j :: j in rest && j.record == h
    requires r == JoinHead(records, employees, rest)
    ensures forall h :: h in records && HasKey(employees, EmployeeModel.IdOf, h.employeeId) ==>
      exists j :: j in r && j.record == h
  {
    assert forall h :: h in records ==> h == records[0] || h in records[1..];
    assert forall j :: j in rest ==> j in r;
    if HasKey(employees, EmployeeModel.IdOf, records[0].employeeId) {
      assert r[0].record == records[0];
    }
  }

  /** `ORDER BY sh.changed_at DESC` on joined rows. */
  predicate JoinedNoEarlier(a: JoinedRecord, b: JoinedRecord) {
    a.record.changedAt >= b.record.changedAt
  }

  /** `SELECT sh.*, e.name, e.email FROM status_history sh JOIN employees e
      ON sh.employee_id = e.id ORDER BY sh.changed_at DESC`: the records
      whose employee still exists, each with that employee's name and
      email, newest first. */
  function GetAll(l: Ledger, employees: EmployeeModel.EmployeeTable): (r: seq<JoinedRecord>)
    ensures |r| == Count(EmployeeExists(employees.rows), l.records)
    ensures forall j :: j in r ==> j.record in l.records && AnnotatedFrom(j, employees.rows)
    ensures forall h :: h in l.records ==>
      (HasKey(employees.rows, EmployeeModel.IdOf, h.employeeId) <==> exists j :: j in r && j.record == h)
    ensures multiset(r) == multiset(Join(l.records, employees.rows))
    ensures SortedBy(r, JoinedNoEarlier)
  {
    var joined := Join(l.records, employees.rows);
    assert TotalPreorder(JoinedNoEarlier);
    SortByMembers(joined, JoinedNoEarlier);
    var r := SortBy(joined, JoinedNoEarlier);
    AnnotatedHasEmployee(r, employees.rows);
    r
  }

  /** A record annotated from the employees belongs to one of them. */
  lemma AnnotatedHasEmployee(r: seq<JoinedRecord>, employees: seq<Employee>)
    requires forall j :: j in r ==> AnnotatedFrom(j, employees)
    ensures forall j :: j in r ==> HasKey(employees, EmployeeModel.IdOf, j.record.employeeId)
  {
    forall j | j in r
      ensures HasKey(employees, EmployeeModel.IdOf, j.record.employeeId)
    {
      var e :| e in employees && e.id == j.record.employeeId && e.name == j.name && e.email == j.email;
      var i :| 0 <= i < |employees| && employees[i] == e;
      assert EmployeeModel.IdOf(employees[i]) == j.record.employeeId;
    }
  }

  /** What `create` leaves behind: the ledger afterwards and the row
      `RETURNING *` hands back. */
  datatype Appended = Appended(ledger: Ledger, record: HistoryRecord)

  /** `INSERT INTO status_history (employee_id, status, notes) VALUES ($1,
      $2, $3) RETURNING *`; `notes` defaults to null (`None`) and
      `changed_at` takes its default, assumed to be the statement time. */
  function Create(l: Ledger, employeeId: Id, status: string, notes: Option<string>, now: Millis): (r: Appended)
    ensures r.ledger.records == l.records + [r.record]
    ensures r.record.employeeId == employeeId && r.record.status == status
    ensures r.record.notes == notes && r.record.changedAt == now
    ensures Valid(l) ==> !HasKey(l.records, RecordId, r.record.id) && Valid(r.ledger)
  {
    var h := HistoryRecord(l.nextId, employeeId, status, now, notes);
    Appended(Ledger(l.records + [h], l.nextId + 1), h)
  }

  /** A record appended after every earlier record of its employee heads that
      employee's history. */
  lemma CreatedRecordHeadsHistory(l: Ledger, employeeId: Id, status: string, notes: Option<string>, now: Millis)
    requires forall h :: h in l.records && h.employeeId == employeeId ==> h.changedAt < now
    ensures
      var a := Create(l, employeeId, status, notes, now);
      var history := GetByEmployeeId(a.ledger, employeeId);
      |history| > 0 && history[0] == a.record
  {
    var a := Create(l, employeeId, status, notes, now);
    var history := GetByEmployeeId(a.ledger, employeeId);
    assert a.record in a.ledger.records;
    assert a.record in history;
    var k :| 0 <= k < |history| && history[k] == a.record;
    if k != 0 {
      assert ChangedNoEarlier(history[0], history[k]);
      assert history[0] in history;
    }
  }

  /** The whole days an employee has held its current status, as PostgreSQL
      reports them: `EXTRACT(DAY FROM (CURRENT_TIMESTAMP -
      status_updated_at))`, truncated toward zero. */
  function DaysInStatus(e: Employee, now: Millis): (days: int)
    ensures e.statusUpdatedAt <= now ==> days >= 0 && days * MS_PER_DAY <= now - e.statusUpdatedAt < days * MS_PER_DAY + MS_PER_DAY
    ensures e.statusUpdatedAt > now ==> days <= 0 && days * MS_PER_DAY - MS_PER_DAY < now - e.statusUpdatedAt <= days * MS_PER_DAY
  {
    TruncDiv(now - e.statusUpdatedAt, MS_PER_DAY)
  }

  /** `WHERE e.current_status = $1 AND EXTRACT(DAY FROM …) >= $2`. */
  function StaleIn(status: string, days: int, now: Millis): Employee -> bool {
    (e: Employee) => e.currentStatus == status && DaysInStatus(e, now) >= days
  }

  /** A row of the stale query: the employee and `days_in_status`. */
  datatype StaleEmployee = StaleEmployee(employee: Employee, daysInStatus: int)

  function Annotate(now: Millis): Employee -> StaleEmployee {
    (e: Employee) => StaleEmployee(e, DaysInStatus(e, now))
  }

  /** `ORDER BY e.status_updated_at ASC`. */
  predicate StatusUpdatedNoLater(a: Employee, b: Employee) {
    a.statusUpdatedAt <= b.statusUpdatedAt
  }

  /** The employees in `status` for at least `days` whole days (an inclusive
      bound), each with its day count, longest-waiting first. */
  function GetStaleEmployees(t: EmployeeModel.EmployeeTable, status: string, days: int, now: Millis): (r: seq<StaleEmployee>)
    ensures |r| == Count(StaleIn(status, days, now), t.rows)
    ensures forall e :: e in t.rows ==>
      (StaleEmployee(e, DaysInStatus(e, now)) in r <==> e.currentStatus == status && DaysInStatus(e, now) >= days)
    ensures forall s :: s in r ==>
      s.employee in t.rows && s.employee.currentStatus == status && s.daysInStatus == DaysInStatus(s.employee, now) >= days
    ensures forall i, j :: 0 <= i < j < |r| ==> r[i].employee.statusUpdatedAt <= r[j].employee.statusUpdatedAt
  {
    var stale := Filter(StaleIn(status, days, now), t.rows);
    FilterLength(StaleIn(status, days, now), t.rows);
    assert TotalPreorder(StatusUpdatedNoLater);
    SortByMembers(stale, StatusUpdatedNoLater);
    var sorted := SortBy(stale, StatusUpdatedNoLater);
    var r := Map(Annotate(now), sorted);
    AnnotateMembers(sorted, now);
    r
  }

  /** Annotating employees with their day counts keeps exactly those
      employees. */
  lemma AnnotateMembers(employees: seq<Employee>, now: Millis)
    ensures forall e :: e in employees ==> StaleEmployee(e, DaysInStatus(e, now)) in Map(Annotate(now), employees)
    ensures forall s :: s in Map(Annotate(now), employees) ==> s.employee in employees && s.daysInStatus == DaysInStatus(s.employee, now)
  {
    var r := Map(Annotate(now), employees);
    forall e | e in employees
      ensures StaleEmployee(e, DaysInStatus(e, now)) in r
    {
      var i :| 0 <= i < |employees| && employees[i] == e;
      assert r[i] == StaleEmployee(e, DaysInStatus(e, now));
    }
    forall s | s in r
      ensures s.employee in employees && s.daysInStatus == DaysInStatus(s.employee, now)
    {
      var i :| 0 <= i < |r| && r[i] == s;
      assert s == StaleEmployee(employees[i], DaysInStatus(employees[i], now));
    }
  }

  /** For a positive threshold the whole-day test is a test on elapsed
      milliseconds: an employee is stale from the instant `days` full days
      have passed, not a day later. */
  lemma StaleThresholdInMillis(e: Employee, days: int, now: Millis)
    requires days >= 1
    ensures DaysInStatus(e, now) >= days <==> now - e.statusUpdatedAt >= days * MS_PER_DAY
  {
    var q := DaysInStatus(e, now);
    if q < days {
      assert (q + 1) * MS_PER_DAY <= days * MS_PER_DAY;
    }
  }
}
