/**
  The client's copy of the employee list and how it follows the server
  (frontend/src/context/EmployeeContext.js): one pure function per socket
  event, the filters applied before display, the selection toggle and the
  guard of the bulk status change. Delivering an event is applying its
  function to the list.
 */
module EmployeeContext {

  import opened Base
  import opened Seqs
  import opened Strings
  import opened Tables
  import opened Events
  import EmployeeModel
  import NoteModel

  type Employee = EmployeeModel.Employee
  type Note = NoteModel.Note

  /** One entry of the client's list: a server row together with the note
      shown as its latest (`latest_note`; an absent and a `null` note are
      both `None`). */
  datatype Entry = Entry(employee: Employee, latestNote: Option<Note>)

  function EntryId(c: Entry): Id { c.employee.id }

  function EntryEmployee(c: Entry): Employee { c.employee }

  /** The ids of the list, in order. */
  function Ids(cache: seq<Entry>): seq<Id> { Map(EntryId, cache) }

  /** The entries that carry `id`. */
  function HasId(id: Id): Entry -> bool {
    (c: Entry) => c.employee.id == id
  }

  // ---------------------------------------------------------------------
  // Socket events
  // ---------------------------------------------------------------------

  /** `employeeCreated`: the snapshot goes in front of the list, whatever
      the list already holds. */
  function OnEmployeeCreated(cache: seq<Entry>, e: Employee): (r: seq<Entry>)
    ensures |r| == |cache| + 1
    ensures r[0] == Entry(e, None) && r[1..] == cache
  {
    [Entry(e, None)] + cache
  }

  /** The entry rewritten by a status snapshot: the snapshot's columns,
      the entry's own latest note. */
  function Refresh(e: Employee): Entry -> Entry {
    (c: Entry) => if c.employee.id == e.id then Entry(e, c.latestNote) else c
  }

  /** `employeeStatusUpdated`: every entry with the snapshot's id takes the
      snapshot and keeps its latest note; the others, the length and the
      order are kept. */
  function OnEmployeeStatusUpdated(cache: seq<Entry>, e: Employee): (r: seq<Entry>)
    ensures |r| == |cache|
    ensures forall i :: 0 <= i < |cache| && cache[i].employee.id == e.id ==> r[i] == Entry(e, cache[i].latestNote)
    ensures forall i :: 0 <= i < |cache| && cache[i].employee.id != e.id ==> r[i] == cache[i]
  {
    Map(Refresh(e), cache)
  }

  /** The snapshots of `updated` that carry `id`. */
  function SnapshotOf(id: Id): Employee -> bool {
    (u: Employee) => u.id == id
  }

  /** `e` is the first snapshot in `updated` that carries its id
      (`updatedEmployees.find(ue => ue.id === emp.id)`). */
  predicate FirstSnapshot(updated: seq<Employee>, e: Employee) {
    exists k :: 0 <= k < |updated| && updated[k] == e && forall j :: 0 <= j < k ==> updated[j].id != e.id
  }

  /** The entry rewritten by a bulk snapshot list. */
  function RefreshFrom(updated: seq<Employee>): Entry -> Entry {
    (c: Entry) =>
      match Find(SnapshotOf(c.employee.id), updated)
      case Some(u) => Entry(u, c.latestNote)
      case None => c
  }

  /** `bulkStatusUpdate`: every entry whose id some snapshot carries takes
      the first such snapshot and keeps its latest note; the others, the
      length and the order are kept. */
  function OnBulkStatusUpdate(cache: seq<Entry>, updated: seq<Employee>): (r: seq<Entry>)
    ensures |r| == |cache|
    ensures forall i :: 0 <= i < |cache| ==> r[i].employee.id == cache[i].employee.id && r[i].latestNote == cache[i].latestNote
    ensures forall i :: 0 <= i < |cache| && (exists u :: u in updated && u.id == cache[i].employee.id) ==>
      FirstSnapshot(updated, r[i].employee)
    ensures forall i :: 0 <= i < |cache| && (forall u :: u in updated ==> u.id != cache[i].employee.id) ==>
      r[i] == cache[i]
  {
    var r := Map(RefreshFrom(updated), cache);
    assert forall i :: 0 <= i < |cache| ==> r[i].employee.id == cache[i].employee.id && r[i].latestNote == cache[i].latestNote by {
      forall i | 0 <= i < |cache|
        ensures r[i].employee.id == cache[i].employee.id && r[i].latestNote == cache[i].latestNote
      {
        var found := Find(SnapshotOf(cache[i].employee.id), updated);
        if found.Some? {
          assert SnapshotOf(cache[i].employee.id)(found.value);
        }
      }
    }
    r
  }

  /** The entry replaced wholesale by a snapshot. */
  function Replace(e: Employee): Entry -> Entry {
    (c: Entry) => Entry(e, None)
  }

  /** `employeeUpdated`: every entry with the snapshot's id is replaced by
      the snapshot alone, so its latest note is dropped; the others, the
      length and the order are kept. */
  function OnEmployeeUpdated(cache: seq<Entry>, e: Employee): (r: seq<Entry>)
    ensures |r| == |cache|
    ensures forall i :: 0 <= i < |cache| && cache[i].employee.id == e.id ==> r[i] == Entry(e, None)
    ensures forall i :: 0 <= i < |cache| && cache[i].employee.id != e.id ==> r[i] == cache[i]
  {
    ReplaceWhere(cache, EntryId, e.id, Replace(e))
  }

  /** `employeeDeleted`: every entry with the id goes, the rest stay in
      order. */
  function OnEmployeeDeleted(cache: seq<Entry>, id: Id): (r: seq<Entry>)
    ensures forall c :: c in r <==> c in cache && c.employee.id != id
    ensures Subsequence(r, cache)
    ensures |r| == |cache| - Count(HasId(id), cache)
  {
    FilterLength(Not(HasId(id)), cache);
    CountComplement(HasId(id), cache);
    Filter(Not(HasId(id)), cache)
  }

  /** The entry with its latest note set to `note`. */
  function WithNote(note: Option<Note>): Entry -> Entry {
    (c: Entry) => c.(latestNote := note)
  }

  /** `noteCreated`: the entries of the note's employee show the new note
      as their latest. */
  function OnNoteCreated(cache: seq<Entry>, employeeId: Id, note: Note): (r: seq<Entry>)
    ensures |r| == |cache|
    ensures forall i :: 0 <= i < |cache| ==> r[i].employee == cache[i].employee
    ensures forall i :: 0 <= i < |cache| ==>
      r[i].latestNote == if cache[i].employee.id == employeeId then Some(note) else cache[i].latestNote
  {
    ReplaceWhere(cache, EntryId, employeeId, WithNote(Some(note)))
  }

  /** The entry whose latest note is `note` (by id) shows its new text. */
  function RefreshNote(note: Note): Entry -> Entry {
    (c: Entry) => if c.latestNote.Some? && c.latestNote.value.id == note.id then c.(latestNote := Some(note)) else c
  }

  /** `noteUpdated`: only entries whose latest note has the note's id
      change, and only in that note; a note that is not the latest anywhere
      changes nothing. */
  function OnNoteUpdated(cache: seq<Entry>, note: Note): (r: seq<Entry>)
    ensures |r| == |cache|
    ensures forall i :: 0 <= i < |cache| ==> r[i].employee == cache[i].employee
    ensures forall i :: 0 <= i < |cache| ==>
      r[i].latestNote == if cache[i].latestNote.Some? && cache[i].latestNote.value.id == note.id then Some(note) else cache[i].latestNote
  {
    Map(RefreshNote(note), cache)
  }

  /** `noteDeleted`: the entries of the note's employee show no latest note,
      whether or not the deleted note was the one shown; `noteId` is not
      consulted. */
  function OnNoteDeleted(cache: seq<Entry>, noteId: Id, employeeId: Id): (r: seq<Entry>)
    ensures |r| == |cache|
    ensures forall i :: 0 <= i < |cache| ==> r[i].employee == cache[i].employee
    ensures forall i :: 0 <= i < |cache| ==>
      r[i].latestNote == if cache[i].employee.id == employeeId then None else cache[i].latestNote
  {
    ReplaceWhere(cache, EntryId, employeeId, WithNote(None))
  }

  /** Delivering one event. */
  function Deliver(cache: seq<Entry>, ev: Event): (r: seq<Entry>)
    ensures !ev.EmployeeCreated? && !ev.EmployeeDeleted? ==> Ids(r) == Ids(cache)
    ensures ev.EmployeeCreated? ==> Ids(r) == [ev.employee.id] + Ids(cache)
    ensures ev.EmployeeDeleted? ==> forall k :: k in Ids(r) <==> k in Ids(cache) && k != ev.id
  {
    match ev
    case EmployeeCreated(e) =>
      var r := OnEmployeeCreated(cache, e);
      assert Ids(r) == [e.id] + Ids(cache);
      r
    case EmployeeStatusUpdated(e) => OnEmployeeStatusUpdated(cache, e)
    case BulkStatusUpdate(updated) => OnBulkStatusUpdate(cache, updated)
    case EmployeeUpdated(e) => OnEmployeeUpdated(cache, e)
    case EmployeeDeleted(id) =>
      var r := OnEmployeeDeleted(cache, id);
      MapMembers(EntryId, r);
      MapMembers(EntryId, cache);
      r
    case NoteCreated(employeeId, note) => OnNoteCreated(cache, employeeId, note)
    case NoteUpdated(note) => OnNoteUpdated(cache, note)
    case NoteDeleted(noteId, employeeId) => OnNoteDeleted(cache, noteId, employeeId)
  }

  /** Delivering events in order. */
  function DeliverAll(cache: seq<Entry>, evs: seq<Event>): seq<Entry>
    decreases |evs|
  {
    if |evs| == 0 then cache else DeliverAll(Deliver(cache, evs[0]), evs[1..])
  }

  /** A status snapshot delivered twice leaves the list as one delivery
      left it. */
  lemma StatusUpdateIdempotent(cache: seq<Entry>, e: Employee)
    ensures OnEmployeeStatusUpdated(OnEmployeeStatusUpdated(cache, e), e) == OnEmployeeStatusUpdated(cache, e)
  {
  }

  /** A status snapshot for an id the list does not hold changes nothing:
      unknown employees are never inserted. */
  lemma StatusUpdateOfUnknownId(cache: seq<Entry>, e: Employee)
    requires e.id !in Ids(cache)
    ensures OnEmployeeStatusUpdated(cache, e) == cache
  {
    assert forall i :: 0 <= i < |cache| ==> Ids(cache)[i] == cache[i].employee.id;
  }

  /** A bulk list none of whose ids the list holds changes nothing. */
  lemma BulkUpdateOfUnknownIds(cache: seq<Entry>, updated: seq<Employee>)
    requires forall u :: u in updated ==> u.id !in Ids(cache)
    ensures OnBulkStatusUpdate(cache, updated) == cache
  {
    assert forall i :: 0 <= i < |cache| ==> Ids(cache)[i] == cache[i].employee.id;
  }

  /** A bulk update of one snapshot is the single status update. */
  lemma BulkOfOne(cache: seq<Entry>, e: Employee)
    ensures OnBulkStatusUpdate(cache, [e]) == OnEmployeeStatusUpdated(cache, e)
  {
    var bulk := OnBulkStatusUpdate(cache, [e]);
    forall i | 0 <= i < |cache|
      ensures bulk[i] == OnEmployeeStatusUpdated(cache, e)[i]
    {
      if cache[i].employee.id == e.id {
        assert e in [e];
        assert FirstSnapshot([e], bulk[i].employee);
      }
    }
  }

  /** A bulk list delivered twice leaves the list as one delivery left it. */
  lemma BulkUpdateIdempotent(cache: seq<Entry>, updated: seq<Employee>)
    ensures OnBulkStatusUpdate(OnBulkStatusUpdate(cache, updated), updated) == OnBulkStatusUpdate(cache, updated)
  {
    var once := OnBulkStatusUpdate(cache, updated);
    var twice := OnBulkStatusUpdate(once, updated);
    forall i | 0 <= i < |cache|
      ensures twice[i] == once[i]
    {
      if exists u :: u in updated && u.id == cache[i].employee.id {
        FirstSnapshotUnique(updated, once[i].employee, twice[i].employee);
      }
    }
  }

  /** Two first snapshots of the same id are the same snapshot. */
  lemma FirstSnapshotUnique(updated: seq<Employee>, a: Employee, b: Employee)
    requires FirstSnapshot(updated, a) && FirstSnapshot(updated, b) && a.id == b.id
    ensures a == b
  {
    var k :| 0 <= k < |updated| && updated[k] == a && forall j :: 0 <= j < k ==> updated[j].id != a.id;
    var m :| 0 <= m < |updated| && updated[m] == b && forall j :: 0 <= j < m ==> updated[j].id != b.id;
  }

  /** `employeeUpdated` and `employeeStatusUpdated` with the same snapshot
      leave the same rows; they differ only in the latest notes. */
  lemma UpdatedAndStatusUpdatedAgreeOnRows(cache: seq<Entry>, e: Employee)
    ensures Map(EntryEmployee, OnEmployeeUpdated(cache, e)) == Map(EntryEmployee, OnEmployeeStatusUpdated(cache, e))
  {
  }

  /** `employeeCreated` does not look for the id: a second delivery of the
      same snapshot adds a second entry with that id. */
  lemma CreatedTwiceDuplicates(cache: seq<Entry>, e: Employee)
    ensures Count(HasId(e.id), OnEmployeeCreated(OnEmployeeCreated(cache, e), e)) == Count(HasId(e.id), cache) + 2
  {
    var once := OnEmployeeCreated(cache, e);
    CountConcat(HasId(e.id), [Entry(e, None)], cache);
    CountConcat(HasId(e.id), [Entry(e, None)], once);
  }

  /** An id deleted twice is deleted once. */
  lemma DeleteIdempotent(cache: seq<Entry>, id: Id)
    ensures OnEmployeeDeleted(OnEmployeeDeleted(cache, id), id) == OnEmployeeDeleted(cache, id)
  {
    FilterTwice(Not(HasId(id)), cache);
  }

  /** `noteUpdated` for a note no entry shows as its latest changes
      nothing. */
  lemma NoteUpdateOfUnshownNote(cache: seq<Entry>, note: Note)
    requires forall c :: c in cache ==> c.latestNote.None? || c.latestNote.value.id != note.id
    ensures OnNoteUpdated(cache, note) == cache
  {
    var r := OnNoteUpdated(cache, note);
    forall i | 0 <= i < |cache|
      ensures r[i] == cache[i]
    {
      assert cache[i] in cache;
    }
  }

  /** `noteDeleted` does not depend on which note was deleted: deleting an
      older note of an employee clears the latest note shown for it just as
      deleting the shown one would. */
  lemma NoteDeletedIgnoresNoteId(cache: seq<Entry>, noteId: Id, otherNoteId: Id, employeeId: Id)
    ensures OnNoteDeleted(cache, noteId, employeeId) == OnNoteDeleted(cache, otherNoteId, employeeId)
  {
    var a := OnNoteDeleted(cache, noteId, employeeId);
    var b := OnNoteDeleted(cache, otherNoteId, employeeId);
    forall i | 0 <= i < |cache|
      ensures a[i] == b[i]
    {
    }
  }

  // ---------------------------------------------------------------------
  // Filters and selection
  // ---------------------------------------------------------------------

  /** The filter state: the stages to show (all when empty) and the search
      text. */
  datatype Filters = Filters(statuses: seq<string>, search: string)

  /** The entries whose stage is listed. */
  function InStatuses(statuses: seq<string>): Entry -> bool {
    (c: Entry) => c.employee.currentStatus in statuses
  }

  /** The entries whose name contains the search text, ignoring case. The
      search text is lower-cased but not trimmed. */
  function NameMatches(search: string): Entry -> bool {
    (c: Entry) => Contains(ToLower(c.employee.name), ToLower(search))
  }

  /** Whether an entry is shown under `f`, stated once for the whole
      filter. */
  function Shown(f: Filters): Entry -> bool {
    (c: Entry) =>
      && (|f.statuses| == 0 || c.employee.currentStatus in f.statuses)
      && (IsBlank(f.search) || Contains(ToLower(c.employee.name), ToLower(f.search)))
  }

  /** `applyFilters`: the stage filter when stages are chosen, then the
      name search when the search text is not blank. The result is the
      entries shown under `f`, in their original order. */
  function ApplyFilters(f: Filters, cache: seq<Entry>): (r: seq<Entry>)
    ensures r == Filter(Shown(f), cache)
  {
    var byStatus := if |f.statuses| > 0 then Filter(InStatuses(f.statuses), cache) else cache;
    TrimEmptyIffBlank(f.search);
    var r := if Trim(f.search) != "" then Filter(NameMatches(f.search), byStatus) else byStatus;
    ApplyFiltersIsShown(f, cache);
    r
  }

  lemma ApplyFiltersIsShown(f: Filters, cache: seq<Entry>)
    ensures
      var byStatus := if |f.statuses| > 0 then Filter(InStatuses(f.statuses), cache) else cache;
      (if !IsBlank(f.search) then Filter(NameMatches(f.search), byStatus) else byStatus) == Filter(Shown(f), cache)
  {
    var p := InStatuses(f.statuses);
    var q := NameMatches(f.search);
    if |f.statuses| > 0 && !IsBlank(f.search) {
      FilterFilter(p, q, cache);
      FilterSame(Both(p, q), Shown(f), cache);
    } else if |f.statuses| > 0 {
      FilterSame(p, Shown(f), cache);
    } else if !IsBlank(f.search) {
      FilterSame(q, Shown(f), cache);
    } else {
      FilterAll(Shown(f), cache);
    }
  }

  /** Predicates that agree on every entry filter alike. */
  lemma {:induction false} FilterSame(p: Entry -> bool, q: Entry -> bool, s: seq<Entry>)
    requires forall c :: p(c) == q(c)
    ensures Filter(p, s) == Filter(q, s)
    decreases |s|
  {
    if |s| > 0 {
      FilterSame(p, q, s[1..]);
    }
  }

  /** With no stage chosen and a blank search the list is shown whole. */
  lemma NoFiltersShowAll(f: Filters, cache: seq<Entry>)
    requires |f.statuses| == 0 && IsBlank(f.search)
    ensures ApplyFilters(f, cache) == cache
  {
    FilterAll(Shown(f), cache);
  }

  /** Filtering what is already filtered changes nothing. */
  lemma ApplyFiltersIdempotent(f: Filters, cache: seq<Entry>)
    ensures ApplyFilters(f, ApplyFilters(f, cache)) == ApplyFilters(f, cache)
  {
    FilterTwice(Shown(f), cache);
  }

  /** The search text is not trimmed before matching: a search that starts
      with a space and is not blank hides every employee whose name has no
      space in it. */
  lemma PaddedSearchNeedsSpace(f: Filters, c: Entry)
    requires |f.search| > 0 && f.search[0] == ' ' && !IsBlank(f.search)
    requires forall k :: 0 <= k < |c.employee.name| ==> c.employee.name[k] != ' '
    ensures !Shown(f)(c)
  {
  }

  /** `toggleEmployeeSelection`: the id leaves the selection if it is in
      it and joins at the end otherwise. */
  function ToggleEmployeeSelection(selected: seq<Id>, id: Id): (r: seq<Id>)
    ensures id in r <==> id !in selected
    ensures forall k :: k != id ==> (k in r <==> k in selected)
    ensures id !in selected ==> r == selected + [id]
    ensures id in selected ==> Subsequence(r, selected) && |r| < |selected|
  {
    Toggle(selected, id)
  }

  /** Selecting and unselecting an employee restores the selection. */
  lemma SelectionToggleTwice(selected: seq<Id>, id: Id)
    requires id !in selected
    ensures ToggleEmployeeSelection(ToggleEmployeeSelection(selected, id), id) == selected
  {
    ToggleTwice(selected, id);
  }

  /** Why a client-side bulk change did not go through. */
  datatype ClientError = NothingSelected | RequestFailed

  /** What the bulk change sends: the selected ids and the stage. */
  datatype BulkRequest = BulkRequest(employeeIds: seq<Id>, status: string)

  /** The error thrown (if any), the request sent (if any) and the
      selection afterwards. */
  datatype BulkAttempt = BulkAttempt(error: Option<ClientError>, sent: Option<BulkRequest>, selection: seq<Id>)

  /** `bulkUpdateStatus` on the client: nothing is sent when nothing is
      selected; otherwise the selection is sent and, only if the request
      succeeds (`accepted`), cleared. */
  function BulkUpdateStatus(selected: seq<Id>, status: string, accepted: bool): (r: BulkAttempt)
    ensures r.error == Some(NothingSelected) <==> |selected| == 0
    ensures |selected| == 0 ==> r.sent.None? && r.selection == selected
    ensures |selected| > 0 ==> r.sent == Some(BulkRequest(selected, status))
    ensures r.error.None? <==> |selected| > 0 && accepted
    ensures r.error.None? ==> r.selection == []
    ensures r.error.Some? ==> r.selection == selected
  {
    if |selected| == 0 then BulkAttempt(Some(NothingSelected), None, selected)
    else if accepted then BulkAttempt(None, Some(BulkRequest(selected, status)), [])
    else BulkAttempt(Some(RequestFailed), Some(BulkRequest(selected, status)), selected)
  }
}
