/**
  The notifications the server broadcasts after a successful write, one
  constructor per event name, each carrying the payload the controller
  emits with it.
 */
module Events {

  import opened Base
  import EmployeeModel
  import NoteModel

  datatype Event =
    | EmployeeCreated(employee: EmployeeModel.Employee)
    | EmployeeStatusUpdated(employee: EmployeeModel.Employee)
    | BulkStatusUpdate(employees: seq<EmployeeModel.Employee>)
    | EmployeeUpdated(employee: EmployeeModel.Employee)
    | EmployeeDeleted(id: Id)
    | NoteCreated(employeeId: Id, note: NoteModel.Note)
    | NoteUpdated(note: NoteModel.Note)
    | NoteDeleted(noteId: Id, employeeId: Id)
}
