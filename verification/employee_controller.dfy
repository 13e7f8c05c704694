/**
  The request handlers for employees (backend/src/controllers/employeeController.js):
  validation of the request, the statement issued, the mapping of its
  result to a status code, and the event broadcast on success. The path
  parameter `id` is taken to be an integer.
 */
module EmployeeController {

  import opened Base
  import opened Strings
  import opened Tables
  import opened Events
  import opened Replies
  import opened EmployeeModel

  /** What the employee handlers answer with. */
  datatype EmployeeBody =
    | One(employee: Employee)
    | Many(employees: seq<Employee>)
    | Message(message: string)
    | Bulk(message: string, employees: seq<Employee>)

  type Result = Outcome<EmployeeTable, EmployeeBody>

  /** The fields of a create request; any may be missing. */
  datatype CreateRequest = CreateRequest(
    name: Option<string>,
    email: Option<string>,
    hireDate: Option<string>,
    currentStatus: Option<string>)

  /** All four fields are present and non-empty. */
  predicate Complete(req: CreateRequest) {
    Given(req.name) && Given(req.email) && Given(req.hireDate) && Given(req.currentStatus)
  }

  /** `GET /employees`: every employee, newest first. */
  function GetAllEmployees(t: EmployeeTable): (r: Result)
    ensures r.reply == Json(200, Many(GetAll(t)))
    ensures r.store == t && r.events == []
  {
    Outcome(Json(200, Many(GetAll(t))), t, [])
  }

  /** `GET /employees/:id`: the employee, or 404. */
  function GetEmployee(t: EmployeeTable, id: Id): (r: Result)
    ensures r.store == t && r.events == []
    ensures HasKey(t.rows, IdOf, id) <==> r.reply.Json?
    ensures r.reply.Json? ==> r.reply.status == 200 && r.reply.value.One? && r.reply.value.employee in t.rows && r.reply.value.employee.id == id
    ensures r.reply.Failure? ==> r.reply == Failure(404, "Employee not found")
  {
    match GetById(t, id)
    case None => Outcome(Failure(404, "Employee not found"), t, [])
    case Some(e) => Outcome(Json(200, One(e)), t, [])
  }

  /** `POST /employees`. An incomplete request is refused before the store
      is touched; an email already on file is refused with 400 after the
      insert fails (the id sequence has still advanced); otherwise the new
      row is answered with 201 and broadcast once. */
  function CreateEmployee(t: EmployeeTable, req: CreateRequest, now: Millis): (r: Result)
    ensures !Complete(req) ==> r == Outcome(Failure(400, "All fields are required"), t, [])
    ensures Complete(req) && EmailHeldByOther(t.rows, req.email.value, t.nextId) ==>
      r.reply == Failure(400, "Email already exists") && r.store.rows == t.rows && r.events == []
    ensures r.reply.Json? <==> Complete(req) && !EmailHeldByOther(t.rows, req.email.value, t.nextId)
    ensures r.reply.Json? ==>
      && r.reply.status == 201
      && r.reply.value.One?
      && r.store.rows == t.rows + [r.reply.value.employee]
      && r.events == [EmployeeCreated(r.reply.value.employee)]
      && r.reply.value.employee.name == req.name.value
      && r.reply.value.employee.email == req.email.value
      && r.reply.value.employee.currentStatus == req.currentStatus.value
      && Create(t, NewEmployee(req.name.value, req.email.value, req.hireDate.value, req.currentStatus.value), now)
         == Stored(Written(r.store, Some(r.reply.value.employee)))
    ensures r.reply.Failure? ==> r.events == []
    ensures Valid(t) ==> Valid(r.store)
  {
    if !Complete(req) then
      Outcome(Failure(400, "All fields are required"), t, [])
    else
      var data := NewEmployee(req.name.value, req.email.value, req.hireDate.value, req.currentStatus.value);
      match Create(t, data, now)
      case EmailTaken(after) => Outcome(Failure(400, "Email already exists"), after, [])
      case Stored(w) => Outcome(Json(201, One(w.row.value)), w.table, [EmployeeCreated(w.row.value)])
  }

  /** `PATCH /employees/:id/status`. A missing or empty status is refused
      before the store is touched; any other string is accepted, whether or
      not it is one of the eight stages. An unknown id answers 404; a known
      one answers the updated row and broadcasts it once. */
  function UpdateEmployeeStatus(t: EmployeeTable, id: Id, status: Option<string>, now: Millis): (r: Result)
    ensures !Given(status) ==> r == Outcome(Failure(400, "Status is required"), t, [])
    ensures Given(status) && !HasKey(t.rows, IdOf, id) ==> r.reply == Failure(404, "Employee not found") && r.store.rows == t.rows && r.events == []
    ensures r.reply.Json? <==> Given(status) && HasKey(t.rows, IdOf, id)
    ensures r.reply.Json? ==>
      && r.reply.status == 200
      && r.reply.value.One?
      && r.store == UpdateStatus(t, id, status.value, now).table
      && r.reply.value.employee.id == id
      && r.reply.value.employee.currentStatus == status.value
      && r.reply.value.employee in r.store.rows
      && r.events == [EmployeeStatusUpdated(r.reply.value.employee)]
    ensures r.reply.Failure? ==> r.store == t && r.events == []
    ensures Valid(t) ==> Valid(r.store)
  {
    if !Given(status) then
      Outcome(Failure(400, "Status is required"), t, [])
    else
      var w := UpdateStatus(t, id, status.value, now);
      if w.row.None? then
        assert w.table.rows == t.rows;
        Outcome(Failure(404, "Employee not found"), w.table, [])
      else
        Outcome(Json(200, One(w.row.value)), w.table, [EmployeeStatusUpdated(w.row.value)])
  }

  /** `PUT /employees/:id`. There is no validation; an unknown id answers
      404, and an email held by another employee makes the statement fail,
      which this handler reports as a generic 500, not as 'Email already
      exists'. */
  function UpdateEmployee(t: EmployeeTable, id: Id, edit: EmployeeEdit, now: Millis): (r: Result)
    ensures !HasKey(t.rows, IdOf, id) ==> r == Outcome(Failure(404, "Employee not found"), t, [])
    ensures HasKey(t.rows, IdOf, id) && EmailHeldByOther(t.rows, edit.email, id) ==>
      r == Outcome(Failure(500, "Failed to update employee"), t, [])
    ensures r.reply.Json? <==> HasKey(t.rows, IdOf, id) && !EmailHeldByOther(t.rows, edit.email, id)
    ensures r.reply.Json? ==>
      && r.reply.status == 200
      && r.reply.value.One?
      && r.reply.value.employee.id == id
      && r.reply.value.employee in r.store.rows
      && Update(t, id, edit, now) == Stored(Written(r.store, Some(r.reply.value.employee)))
      && r.events == [EmployeeUpdated(r.reply.value.employee)]
    ensures r.reply.Failure? ==> r.store == t && r.events == []
    ensures Valid(t) ==> Valid(r.store)
  {
    match Update(t, id, edit, now)
    case EmailTaken(_) => Outcome(Failure(500, "Failed to update employee"), t, [])
    case Stored(w) =>
      if w.row.None? then
        assert w.table == t;
        Outcome(Failure(404, "Employee not found"), t, [])
      else
        Outcome(Json(200, One(w.row.value)), w.table, [EmployeeUpdated(w.row.value)])
  }

  /** `DELETE /employees/:id`. Only a row actually deleted is announced, and
      the announcement carries the id alone. */
  function DeleteEmployee(t: EmployeeTable, id: Id): (r: Result)
    ensures !HasKey(t.rows, IdOf, id) ==> r == Outcome(Failure(404, "Employee not found"), t, [])
    ensures r.reply.Json? <==> HasKey(t.rows, IdOf, id)
    ensures r.reply.Json? ==>
      && r.reply == Json(200, Message("Employee deleted successfully"))
      && r.events == [EmployeeDeleted(id)]
      && r.store == Delete(t, id).table
      && !HasKey(r.store.rows, IdOf, id)
    ensures Valid(t) ==> Valid(r.store)
  {
    var w := Delete(t, id);
    if w.row.None? then
      assert w.table.rows == t.rows;
      Outcome(Failure(404, "Employee not found"), t, [])
    else
      Outcome(Json(200, Message("Employee deleted successfully")), w.table, [EmployeeDeleted(id)])
  }

  /** What the bulk statement of the employee model returns when it
      succeeds: the table afterwards and the rows it reports updated. */
  datatype BulkStored = BulkStored(table: EmployeeTable, updated: seq<Employee>)

  /** `PATCH /employees/bulk-status`. `employeeIds` must be a non-empty
      array (`None` stands for a missing or non-array value) and the status
      must be given, both checked before the store is called. The bulk
      statement itself is not part of this model: `store` stands for it, and
      `None` for its failing. */
  function BulkUpdateStatus(
    t: EmployeeTable,
    employeeIds: Option<seq<Id>>,
    status: Option<string>,
    store: (EmployeeTable, seq<Id>, string) -> Option<BulkStored>): (r: Result)
    ensures employeeIds.None? || |employeeIds.value| == 0 ==>
      r == Outcome(Failure(400, "Employee IDs array is required"), t, [])
    ensures employeeIds.Some? && |employeeIds.value| > 0 && !Given(status) ==>
      r == Outcome(Failure(400, "Status is required"), t, [])
    ensures employeeIds.Some? && |employeeIds.value| > 0 && Given(status) ==>
      match store(t, employeeIds.value, status.value)
      case None => r == Outcome(Failure(500, "Failed to bulk update status"), t, [])
      case Some(done) =>
        && r.reply == Json(200, Bulk("Successfully updated " + NatString(|done.updated|), done.updated))
        && r.store == done.table
        && r.events == [BulkStatusUpdate(done.updated)]
  {
    if employeeIds.None? || |employeeIds.value| == 0 then
      Outcome(Failure(400, "Employee IDs array is required"), t, [])
    else if !Given(status) then
      Outcome(Failure(400, "Status is required"), t, [])
    else
      match store(t, employeeIds.value, status.value)
      case None => Outcome(Failure(500, "Failed to bulk update status"), t, [])
      case Some(done) =>
        Outcome(
          Json(200, Bulk("Successfully updated " + NatString(|done.updated|), done.updated)),
          done.table,
          [BulkStatusUpdate(done.updated)])
  }
}
