/**
  The request handlers for notes (backend/src/controllers/noteController.js).
  Note content must contain something other than white space; it is stored
  exactly as sent, untrimmed.
 */
module NoteController {

  import opened Base
  import opened Seqs
  import opened Sorting
  import opened Strings
  import opened Tables
  import opened Events
  import opened Replies
  import opened NoteModel

  /** What the note handlers answer with. */
  datatype NoteBody =
    | One(note: Note)
    | Many(notes: seq<Note>)
    | Message(message: string)

  type Result = Outcome<NoteTable, NoteBody>

  /** `!content || !content.trim()` is false: the content is present and
      not white space only. */
  predicate HasContent(content: Option<string>) {
    content.Some? && Trim(content.value) != ""
  }

  /** The content guard in terms of the characters themselves. */
  lemma HasContentIffNotBlank(content: Option<string>)
    ensures HasContent(content) <==> content.Some? && !IsBlank(content.value)
  {
    if content.Some? {
      TrimEmptyIffBlank(content.value);
    }
  }

  /** `GET /employees/:employeeId/notes`: the employee's notes, newest
      first. */
  function GetEmployeeNotes(t: NoteTable, employeeId: Id): (r: Result)
    ensures r.store == t && r.events == []
    ensures r.reply.Json? && r.reply.status == 200 && r.reply.value.Many?
    ensures forall n :: n in r.reply.value.notes <==> n in t.rows && n.employeeId == employeeId
    ensures multiset(r.reply.value.notes) == multiset(Filter(NoteOf(employeeId), t.rows))
    ensures SortedBy(r.reply.value.notes, CreatedNoEarlier)
  {
    Outcome(Json(200, Many(GetByEmployeeId(t, employeeId))), t, [])
  }

  /** `POST /employees/:employeeId/notes`: refused with 400 when the content
      is missing or blank; otherwise the note is stored, answered with 201
      and broadcast together with the employee it belongs to. */
  function CreateNote(t: NoteTable, employeeId: Id, content: Option<string>, now: Millis): (r: Result)
    ensures !HasContent(content) ==> r == Outcome(Failure(400, "Note content is required"), t, [])
    ensures r.reply.Json? <==> HasContent(content)
    ensures r.reply.Json? ==>
      && r.reply.status == 201
      && r.reply.value.One?
      && r.reply.value.note.employeeId == employeeId
      && r.reply.value.note.content == content.value
      && r.reply.value.note.createdAt == now
      && r.reply.value.note.updatedAt == now
      && r.store.rows == t.rows + [r.reply.value.note]
      && Create(t, employeeId, content.value, now) == Written(r.store, Some(r.reply.value.note))
      && r.events == [NoteCreated(employeeId, r.reply.value.note)]
    ensures Valid(t) ==> Valid(r.store)
  {
    if !HasContent(content) then
      Outcome(Failure(400, "Note content is required"), t, [])
    else
      var w := Create(t, employeeId, content.value, now);
      Outcome(Json(201, One(w.row.value)), w.table, [NoteCreated(employeeId, w.row.value)])
  }

  /** `PUT /notes/:noteId`: the same content guard, then 404 for an unknown
      note; otherwise the edited note is answered and broadcast. */
  function UpdateNote(t: NoteTable, noteId: Id, content: Option<string>, now: Millis): (r: Result)
    ensures !HasContent(content) ==> r == Outcome(Failure(400, "Note content is required"), t, [])
    ensures HasContent(content) && !HasKey(t.rows, IdOf, noteId) ==>
      r.reply == Failure(404, "Note not found") && r.store.rows == t.rows && r.events == []
    ensures r.reply.Json? <==> HasContent(content) && HasKey(t.rows, IdOf, noteId)
    ensures r.reply.Json? ==>
      && r.reply.status == 200
      && r.reply.value.One?
      && r.reply.value.note.id == noteId
      && r.reply.value.note.content == content.value
      && r.reply.value.note in r.store.rows
      && r.store == Update(t, noteId, content.value, now).table
      && |r.store.rows| == |t.rows|
      && (forall i :: 0 <= i < |t.rows| && t.rows[i].id != noteId ==> r.store.rows[i] == t.rows[i])
      && r.events == [NoteUpdated(r.reply.value.note)]
    ensures Valid(t) ==> Valid(r.store)
  {
    if !HasContent(content) then
      Outcome(Failure(400, "Note content is required"), t, [])
    else
      var w := Update(t, noteId, content.value, now);
      if w.row.None? then
        assert w.table.rows == t.rows;
        Outcome(Failure(404, "Note not found"), w.table, [])
      else
        Outcome(Json(200, One(w.row.value)), w.table, [NoteUpdated(w.row.value)])
  }

  /** `DELETE /notes/:noteId`: 404 for an unknown note; otherwise the note
      is removed and the broadcast names both the note and the employee it
      belonged to. */
  function DeleteNote(t: NoteTable, noteId: Id): (r: Result)
    ensures !HasKey(t.rows, IdOf, noteId) ==> r == Outcome(Failure(404, "Note not found"), t, [])
    ensures r.reply.Json? <==> HasKey(t.rows, IdOf, noteId)
    ensures r.reply.Json? ==>
      && r.reply == Json(200, Message("Note deleted successfully"))
      && !HasKey(r.store.rows, IdOf, noteId)
      && r.store == Delete(t, noteId).table
      && (forall n :: n in r.store.rows <==> n in t.rows && n.id != noteId)
      && exists n :: n in t.rows && n.id == noteId && r.events == [NoteDeleted(noteId, n.employeeId)]
    ensures Valid(t) ==> Valid(r.store)
  {
    var w := Delete(t, noteId);
    if w.row.None? then
      assert w.table.rows == t.rows;
      Outcome(Failure(404, "Note not found"), t, [])
    else
      Outcome(Json(200, Message("Note deleted successfully")), w.table, [NoteDeleted(noteId, w.row.value.employeeId)])
  }
}
