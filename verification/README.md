# Onboarding tracker: a Dafny model

This project models the core of the onboarding tracker, a web application that follows employees through eight onboarding stages, from "Candidate Prep" to "On Assignment". It covers both the server and the client.

The server keeps three tables: `employees`, `status_history` and `notes`. A handler answers each HTTP request and broadcasts an event over a socket when a write succeeds. The client keeps its own list of employees, each with its latest note. It patches that list when events arrive, filters it for display, and keeps a selection for bulk status changes.

Every table is a sequence of rows in storage order. Each row has a unique integer id, and the table holds the next value its id sequence will hand out. Each SQL statement of the models is a pure function from the table before to the table after, together with what `RETURNING *` hands back.

- The current time (`CURRENT_TIMESTAMP`, `new Date()`) is a parameter `now`, in milliseconds.
- `ORDER BY` is specified as SQL promises it: the result is a permutation of the selected rows, sorted by the key, with nothing said about ties.
- A handler returns an `Outcome`: the reply, the table afterwards, and the events it broadcasts.
- The client's socket handlers are functions from the cached list to the new list.

The modules follow the repository's files:

| module | models |
|---|---|
| `Statuses` | the stage list and colour map |
| `EmployeeModel`, `NoteModel`, `StatusHistoryModel` | the model files' queries |
| `StatusAnalytics` | the two aggregate queries |
| `EmployeeController`, `NoteController`, `StatusHistoryController` | the request handlers |
| `EmployeeContext` | the client's state |
| `EmployeeCard`, `FilterBar`, `StatusHistoryView` | the pure helpers of those components |

The supporting modules are:

| module | contents |
|---|---|
| `Base` | times and day arithmetic |
| `Seqs` | filter, count, map, find and toggle |
| `Sorting` | `ORDER BY` and `SELECT DISTINCT` |
| `Strings` | `trim`, ASCII lower-casing, substring search, code-point order and decimal numerals |
| `Tables` | keyed lookup, rewrite and delete |
| `Events`, `Replies` | the event payloads and the HTTP replies |

`Sync` connects the two sides. It proves that a client list mirroring the employees table keeps mirroring it when it receives the events that the create, status-change, edit and delete handlers broadcast, and that note events leave the mirrored employees alone. Nothing is claimed for the bulk status handler, whose statement is a parameter.

Day arithmetic is written out for each place it happens:

- **Client (`Math.floor`).** The client counts whole days by rounding down. `Base.DaysBetween` uses Dafny's Euclidean division by a positive divisor, which is the same as flooring.
- **Server (`EXTRACT(DAY FROM …)`).** PostgreSQL truncates toward zero. `StatusHistoryModel.DaysInStatus` models that explicitly.
- **Stale thresholds.** The card flags more than 30 days. The stale query lists 30 days or more. Both rules are modelled, and the lemmas show where they part.

The code does not do the following, and neither does the model:

- No statement of the model files appends a `status_history` record on a status change or on creation. The projection and the ledger are separate tables here, and nothing is claimed about their agreement.
- The server does not check a status against the eight stages. Any non-empty string is stored.
- The client does not discard out-of-order snapshots. Every status event overwrites the entry with its id.
- The bulk status statement is not defined in the employee model file. Its atomicity is not assumed: it is a parameter of the handler.

## Model

| member | source | states |
|---|---|---|
| Statuses.StageIndex | frontend/src/constants/statuses.js:1-10 | every stage has exactly one position in the pipeline |
| Statuses.StagesFixed | frontend/src/constants/statuses.js:1-10 | there are eight stages, the first is 'Candidate Prep' and the last 'On Assignment' |
| Statuses.StagesDistinct | frontend/src/constants/statuses.js:1-10 | no stage is listed twice |
| Statuses.ColorsCoverStages | frontend/src/constants/statuses.js:12-21 | the colour map has an entry for every stage and for nothing else |
| EmployeeModel.GetAll | backend/src/models/employeeModel.js:4-8 | the result is a permutation of all rows, ordered newest first by created_at |
| EmployeeModel.GetById | backend/src/models/employeeModel.js:9-13 | a row is returned exactly when one has that id; it has that id, and with unique ids it is the one row that does |
| EmployeeModel.Create | backend/src/models/employeeModel.js:14-23 | fails exactly when another row holds the email, and then leaves the rows alone; otherwise appends one row with the given fields, all three timestamps `now`, and an id not yet used; constraints are kept |
| EmployeeModel.UpdateStatus | backend/src/models/employeeModel.js:24-35 | the row with the id gets the status and both timestamps `now`, with name, email, hire date and created_at kept; other rows are untouched; a row is returned exactly when the id exists; constraints are kept |
| EmployeeModel.Update | backend/src/models/employeeModel.js:36-46 | for an existing id, fails exactly when another row holds the new email; otherwise sets name, email, hire date and updated_at only, never the status columns; an unknown id changes nothing and returns nothing |
| EmployeeModel.Delete | backend/src/models/employeeModel.js:47-51 | the rows left are exactly the old rows without the id, in order; the deleted row is returned exactly when the id existed; with unique ids one row fewer |
| EmployeeModel.SearchByName | backend/src/models/employeeModel.js:57-61 | exactly the rows whose lower-cased name contains the lower-cased term, each once, in name order |
| EmployeeModel.UpdateStatusThenGet | backend/src/models/employeeModel.js:24-35 | after a status change of an existing employee, reading it back gives the returned row, with the new status |
| EmployeeModel.UpdateStatusIdempotent | backend/src/models/employeeModel.js:24-35 | the same status change twice at the same instant is the change once |
| EmployeeModel.DeleteThenGet | backend/src/models/employeeModel.js:47-51 | after a delete the id reads as absent and every other id reads as before |
| EmployeeModel.CreateThenGet | backend/src/models/employeeModel.js:14-23 | a created row reads back under its new id |
| NoteModel.GetByEmployeeId | backend/src/models/noteModel.js:4-12 | exactly that employee's notes, each as often as it is stored, newest first |
| NoteModel.LatestOf | backend/src/models/noteModel.js:13-22 | a note is found exactly when the employee has one, and no note of that employee is newer |
| NoteModel.GetLatestForAllEmployees | backend/src/models/noteModel.js:13-22 | stored notes only, one per employee with notes, none older than another note of its employee, strictly increasing by employee id |
| NoteModel.Create | backend/src/models/noteModel.js:23-31 | appends one note with the employee, the content and both timestamps `now`, under an unused id |
| NoteModel.Update | backend/src/models/noteModel.js:32-41 | only the content and updated_at of the note with the id change; a note is returned exactly when the id exists |
| NoteModel.Delete | backend/src/models/noteModel.js:42-46 | the notes left are exactly the others, in order; the deleted note is returned exactly when the id existed |
| NoteModel.GetById | backend/src/models/noteModel.js:47-51 | a note is returned exactly when one has that id; with unique ids it is the one note that does |
| NoteModel.CreatedNoteIsLatest | backend/src/models/noteModel.js:13-31 | a note created after every stored note becomes its employee's latest note |
| StatusHistoryModel.GetByEmployeeId | backend/src/models/statusHistoryModel.js:4-12 | exactly the employee's records, each as often as stored, newest first |
| StatusHistoryModel.Join | backend/src/models/statusHistoryModel.js:13-22 | one row per record whose employee exists, each carrying that employee's name and email |
| StatusHistoryModel.GetAll | backend/src/models/statusHistoryModel.js:13-22 | a record appears exactly when its employee exists, annotated from that employee; the rows are a rearrangement of the inner join, as many as such records; newest first |
| StatusHistoryModel.Create | backend/src/models/statusHistoryModel.js:23-31 | appends exactly one record with the employee, status, notes and `now` under an unused id, leaving the earlier records as they were |
| StatusHistoryModel.CreatedRecordHeadsHistory | backend/src/models/statusHistoryModel.js:4-31 | a record created after the employee's earlier changes heads that employee's history |
| StatusHistoryModel.DaysInStatus | backend/src/models/statusHistoryModel.js:32-43 | whole days elapsed, truncated toward zero: bracketed from below for a past timestamp and from above for a future one |
| StatusHistoryModel.GetStaleEmployees | backend/src/models/statusHistoryModel.js:32-43 | an employee is listed exactly when in the status for at least `days` whole days (inclusive), with that day count, longest waiting first |
| StatusHistoryModel.StaleThresholdInMillis | backend/src/models/statusHistoryModel.js:32-43 | for a positive threshold, the whole-day test holds exactly when `days` full days of milliseconds have passed |
| StatusAnalytics.Lead | backend/src/models/statusHistoryModel.js:50-54 | each interval ends at the next record's changed_at, and the last one ends at `now` |
| StatusAnalytics.LeadTelescopes | backend/src/models/statusHistoryModel.js:50-54 | one partition's intervals add up to `now` minus its first changed_at |
| StatusAnalytics.IntervalsEndAtNextChange | backend/src/models/statusHistoryModel.js:46-55 | every record's interval ends at the `changed_at` of another row of the same employee with none strictly in between, or at `now` if no row of that employee is later |
| StatusAnalytics.IntervalsCoverRecords | backend/src/models/statusHistoryModel.js:46-55 | the intervals hold one row per history record: every record as often as it is stored |
| StatusAnalytics.ResidencyDetermined | backend/src/models/statusHistoryModel.js:50-54 | when no two records of an employee share a `changed_at`, the end of each record's interval is determined, so the totals per stage are too |
| StatusAnalytics.IntervalsCountByStatus | backend/src/models/statusHistoryModel.js:46-63 | a stage has as many intervals as records |
| StatusAnalytics.IntervalsNonNegative | backend/src/models/statusHistoryModel.js:50-54 | with `now` no earlier than any change, no interval is negative |
| StatusAnalytics.IntervalsTelescope | backend/src/models/statusHistoryModel.js:50-54 | one employee's intervals add up to `now` minus that employee's earliest changed_at |
| StatusAnalytics.RecordedStages | backend/src/models/statusHistoryModel.js:57-63 | the stages occurring in the history, each once, in increasing order |
| StatusAnalytics.AverageTimeByStatus | backend/src/models/statusHistoryModel.js:44-67 | one row per stage in the history, ordered by stage; its count is the number of records in that stage and its total the sum of their intervals, the intervals that `IntervalsEndAtNextChange`, `IntervalsCoverRecords` and `ResidencyDetermined` pin down |
| StatusAnalytics.AveragesNonNegative | backend/src/models/statusHistoryModel.js:44-67 | with `now` no earlier than any change, every total is non-negative |
| StatusAnalytics.HeldStages | backend/src/models/statusHistoryModel.js:68-77 | the stages some employee is in now, each once |
| StatusAnalytics.StatusDistribution | backend/src/models/statusHistoryModel.js:68-77 | one row per stage held, with its positive head count, no stage twice, largest first; the counts add up to the number of employees |
| EmployeeController.GetAllEmployees | backend/src/controllers/employeeController.js:4-12 | 200 with all employees newest first; nothing changes |
| EmployeeController.GetEmployee | backend/src/controllers/employeeController.js:13-27 | 200 with the row exactly when the id exists, otherwise 404 'Employee not found' |
| EmployeeController.CreateEmployee | backend/src/controllers/employeeController.js:28-48 | a missing field gives 400 with no write and no event; a taken email gives 400 'Email already exists' with no event; otherwise 201 with the row the insert stored (the given fields, `now` timestamps, the next id), broadcast once |
| EmployeeController.UpdateEmployeeStatus | backend/src/controllers/employeeController.js:49-71 | a missing status gives 400 before the store is touched; an unknown id gives 404 with nothing changed; otherwise 200 with the updated row in the new status, broadcast once; any non-empty status is accepted |
| EmployeeController.UpdateEmployee | backend/src/controllers/employeeController.js:72-88 | an unknown id gives 404 and a taken email 500, both with nothing changed and no event; otherwise 200 with the edited row, broadcast once |
| EmployeeController.DeleteEmployee | backend/src/controllers/employeeController.js:89-105 | 404 exactly when the id is unknown; otherwise the row is gone, 200 with the success message, and the event carries the id alone |
| EmployeeController.BulkUpdateStatus | backend/src/controllers/employeeController.js:127-143 | missing or empty ids, then a missing status, give 400 before the store is called; a store failure gives 500; success reports the number of rows updated and broadcasts them once |
| NoteController.HasContentIffNotBlank | backend/src/controllers/noteController.js:17-20 | content passes exactly when it is present and not white space only |
| NoteController.GetEmployeeNotes | backend/src/controllers/noteController.js:4-13 | 200 with exactly the employee's notes, each as often as stored, newest first; nothing changes |
| NoteController.CreateNote | backend/src/controllers/noteController.js:14-28 | blank content gives 400 with no write; otherwise 201 with the note NoteModel.Create stores: the content untrimmed, created_at and updated_at both `now`, appended under the next id, and broadcast once with its employee id |
| NoteController.UpdateNote | backend/src/controllers/noteController.js:29-46 | blank content gives 400; an unknown note gives 404 with no event; otherwise 200 with the edited note, broadcast once, the store being the update statement's table, so every other note is kept in place |
| NoteController.DeleteNote | backend/src/controllers/noteController.js:47-60 | 404 exactly when the note is unknown; otherwise the store is the delete statement's table, which keeps exactly the other notes, and the event names the note and its employee |
| StatusHistoryController.GetEmployeeHistory | backend/src/controllers/statusHistoryController.js:4-13 | 200 with exactly the employee's records, each as often as stored, newest first |
| StatusHistoryController.GetAllHistory | backend/src/controllers/statusHistoryController.js:14-22 | 200 with one annotated row per record whose employee exists, every such record present, newest first |
| StatusHistoryController.GetStaleEmployees | backend/src/controllers/statusHistoryController.js:23-35 | 400 exactly when the status is missing or empty; otherwise the stale query's list unchanged, with a threshold of 30 days when none is given: each matching employee once, only matching employees, oldest status change first |
| StatusHistoryController.GetAnalytics | backend/src/controllers/statusHistoryController.js:36-50 | both query results of one state, unmodified: every stage in the history is averaged, every held stage counted, and the counts add up to the number of employees |
| EmployeeContext.OnEmployeeCreated | frontend/src/context/EmployeeContext.js:132-135 | the snapshot goes in front, without a note, and the old list follows unchanged |
| EmployeeContext.OnEmployeeStatusUpdated | frontend/src/context/EmployeeContext.js:137-140 | entries with the id take the snapshot and keep their latest note; others, length and order are kept |
| EmployeeContext.OnBulkStatusUpdate | frontend/src/context/EmployeeContext.js:142-158 | a listed entry takes the first snapshot with its id and keeps its note; unlisted entries, ids, notes and length are kept |
| EmployeeContext.OnEmployeeUpdated | frontend/src/context/EmployeeContext.js:160-162 | entries with the id are replaced by the snapshot with no note; others are kept |
| EmployeeContext.OnEmployeeDeleted | frontend/src/context/EmployeeContext.js:164-167 | exactly the entries without the id remain, in order, one fewer per entry removed |
| EmployeeContext.OnNoteCreated | frontend/src/context/EmployeeContext.js:169-171 | the employee's entries show the new note; no employee changes |
| EmployeeContext.OnNoteUpdated | frontend/src/context/EmployeeContext.js:173-175 | only entries whose shown note has the note's id change, and only in that note |
| EmployeeContext.OnNoteDeleted | frontend/src/context/EmployeeContext.js:177-179 | the employee's entries show no note; no employee changes |
| EmployeeContext.Deliver | frontend/src/context/EmployeeContext.js:132-179 | only creation and deletion change the list's ids: creation puts the id in front, deletion removes it |
| EmployeeContext.StatusUpdateIdempotent | frontend/src/context/EmployeeContext.js:137-140 | the same status snapshot twice is the snapshot once |
| EmployeeContext.StatusUpdateOfUnknownId | frontend/src/context/EmployeeContext.js:137-140 | a snapshot of an employee not in the list changes nothing |
| EmployeeContext.BulkUpdateOfUnknownIds | frontend/src/context/EmployeeContext.js:142-158 | a bulk update naming no listed employee changes nothing |
| EmployeeContext.BulkOfOne | frontend/src/context/EmployeeContext.js:137-158 | a bulk update of one snapshot is a single status update |
| EmployeeContext.BulkUpdateIdempotent | frontend/src/context/EmployeeContext.js:142-158 | the same bulk update twice is the update once |
| EmployeeContext.FirstSnapshotUnique | frontend/src/context/EmployeeContext.js:147 | the first snapshot with an id is unique |
| EmployeeContext.UpdatedAndStatusUpdatedAgreeOnRows | frontend/src/context/EmployeeContext.js:137-162 | the two update events leave the same employees and differ only in the notes |
| EmployeeContext.CreatedTwiceDuplicates | frontend/src/context/EmployeeContext.js:132-135 | a creation delivered twice adds two entries with that id |
| EmployeeContext.DeleteIdempotent | frontend/src/context/EmployeeContext.js:164-167 | a deletion delivered twice is the deletion once |
| EmployeeContext.NoteUpdateOfUnshownNote | frontend/src/context/EmployeeContext.js:173-175 | an edit of a note shown nowhere changes nothing |
| EmployeeContext.NoteDeletedIgnoresNoteId | frontend/src/context/EmployeeContext.js:177-179 | which note was deleted makes no difference, only its employee |
| EmployeeContext.ApplyFilters | frontend/src/context/EmployeeContext.js:112-124 | the entries shown, in order: in a listed stage (or no stage listed) and, for non-blank search text, with the lower-cased search text in the lower-cased name |
| EmployeeContext.ApplyFiltersIsShown | frontend/src/context/EmployeeContext.js:112-124 | the two filter passes together keep exactly the entries the combined predicate shows |
| EmployeeContext.NoFiltersShowAll | frontend/src/context/EmployeeContext.js:112-124 | no stage and blank search text show the whole list unchanged |
| EmployeeContext.ApplyFiltersIdempotent | frontend/src/context/EmployeeContext.js:112-124 | filtering a filtered list changes nothing |
| EmployeeContext.PaddedSearchNeedsSpace | frontend/src/context/EmployeeContext.js:119-120 | the search text is checked for blankness trimmed but matched untrimmed, so a leading space hides every name without a space |
| EmployeeContext.ToggleEmployeeSelection | frontend/src/context/EmployeeContext.js:100-102 | the id becomes selected exactly when it was not, others are kept, a new id joins at the end, and a removal keeps the others in order and shortens the list |
| EmployeeContext.SelectionToggleTwice | frontend/src/context/EmployeeContext.js:100-102 | toggling an unselected id twice restores the selection |
| EmployeeContext.BulkUpdateStatus | frontend/src/context/EmployeeContext.js:69-80 | an empty selection is refused and nothing is sent; otherwise the selection is sent, and it is cleared exactly when the request succeeds |
| EmployeeCard.DaysInStatus | frontend/src/components/EmployeeCard.js:50-54 | whole days since the status change, rounded down, also negative for a future timestamp |
| EmployeeCard.StaleInMillis | frontend/src/components/EmployeeCard.js:56-57 | the card flags an employee exactly when 31 full days have passed |
| EmployeeCard.CardAgreesWithBackendDays | frontend/src/components/EmployeeCard.js:50-57 | for a past timestamp the card's day count is the server's, and the card flags at 31 days |
| EmployeeCard.ThirtyDaysStaleOnlyInBackend | frontend/src/components/EmployeeCard.js:56-57 | at exactly 30 days the stale query lists the employee but the card does not flag it |
| EmployeeCard.SinceLabel | frontend/src/components/EmployeeCard.js:45-47 | 'Today' exactly for 0, 'Yesterday' exactly for 1, and otherwise the printed number followed by ' days ago' |
| EmployeeCard.TimeSinceUpdate | frontend/src/components/EmployeeCard.js:40-48 | 'Today' exactly within the first day after the update, 'Yesterday' exactly within the second, otherwise '<n> days ago' with n the elapsed days rounded down |
| EmployeeCard.SinceLabelInjective | frontend/src/components/EmployeeCard.js:40-48 | different day counts give different labels |
| EmployeeCard.ToggleFlipsSelected | frontend/src/components/EmployeeCard.js:10 | toggling an employee flips its checkbox and leaves every other card's checkbox alone |
| FilterBar.ToggleStatus | frontend/src/components/FilterBar.js:8-15 | the stage becomes listed exactly when it was not, other stages are kept, a new stage joins at the end, a removal keeps the others in order and shortens the list, and the search text is kept |
| FilterBar.StatusToggleTwice | frontend/src/components/FilterBar.js:8-15 | toggling an unlisted stage twice restores the filters |
| FilterBar.ClearFilters | frontend/src/components/FilterBar.js:24-26 | no stage and empty search text |
| FilterBar.ClearedFiltersShowAll | frontend/src/components/FilterBar.js:24-26 | after clearing, the whole list is shown |
| FilterBar.SelectAll | frontend/src/components/FilterBar.js:28-35 | a selection as long as the list shown is cleared; otherwise the ids shown, in order, are selected |
| FilterBar.SelectAllThenClear | frontend/src/components/FilterBar.js:28-37 | select all turns the checkbox on, and a second click clears the selection |
| FilterBar.LengthOnlySelectAll | frontend/src/components/FilterBar.js:28-37 | a selection of one hidden employee checks the box while the shown employee is unselected, and the click clears instead of selecting |
| FilterBar.SelectAllShown | frontend/src/components/FilterBar.js:28-35 | clears when every shown employee is selected, otherwise selects every shown employee |
| FilterBar.SelectAllShownSelectsShown | frontend/src/components/FilterBar.js:28-37 | after the corrected click selects, every shown employee is selected; the click never clears while a shown employee is unselected |
| FilterBar.CheckboxesAgreeOnShownSelections | frontend/src/components/FilterBar.js:37 | without duplicates, and with only shown employees selected, the length test and the membership test agree |
| StatusHistoryView.DaysLabel | frontend/src/components/StatusHistory.js:42-44 | 'Less than a day' exactly for 0, '1 day' exactly for 1, otherwise the numeral and ' days' |
| StatusHistoryView.DaysUntilNext | frontend/src/components/StatusHistory.js:38-40 | whole days, rounded down, from the record to the one listed above it |
| StatusHistoryView.CalculateDuration | frontend/src/components/StatusHistory.js:35-45 | 'Current' exactly for the first row; otherwise the label of the days until the row above |
| StatusHistoryView.DurationIgnoresClock | frontend/src/components/StatusHistory.js:36-39 | the clock fallback is never used: the label does not depend on the current time |
| StatusHistoryView.SortedDurationsNonNegative | frontend/src/components/StatusHistory.js:38-40 | in a newest-first history no duration is negative |
| StatusHistoryView.SameDayLabel | frontend/src/components/StatusHistory.js:40-42 | two changes less than a day apart read 'Less than a day' |
| StatusHistoryView.ServedTimelineNonNegative | frontend/src/components/StatusHistory.js:38-40 | on the history the server sends, no duration is negative |
| Sync.CreateKeepsMirror | backend/src/controllers/employeeController.js:28-48 | a mirroring client list still mirrors the table after receiving the events of a create request, whatever its outcome |
| Sync.UpdateStatusKeepsMirror | backend/src/controllers/employeeController.js:49-71 | the same for a status change |
| Sync.UpdateKeepsMirror | backend/src/controllers/employeeController.js:72-88 | the same for an edit |
| Sync.DeleteKeepsMirror | backend/src/controllers/employeeController.js:89-105 | the same for a deletion |
| Sync.NoteEventKeepsMirror | frontend/src/context/EmployeeContext.js:169-179 | note events keep the list mirroring the employees table |
| Sync.ClientBulkPassesIdsCheck | frontend/src/context/EmployeeContext.js:69-80 | a bulk request the client sends is never refused for missing ids |

## Left out

- React rendering, component state plumbing and effects are left out. The model keeps only the pure helpers of the components.
- Dashboard percentages and the `avg_days` float are left out because they are floating point. The average query is kept as a count and a total in milliseconds per stage. The division by the count and by 86400 is not modelled.
- Transport is left out: the HTTP client, the socket service and the server setup. Broadcasting is the `events` list of an outcome, and delivery is `EmployeeContext.DeliverAll`.
- The route tables are left out. They map no bulk-status and no with-notes endpoint, so those two handlers are not reachable as routed.
- `employeeModel.bulkUpdateStatus` and `employeeModel.getAllWithNotes` are called but not defined in the model file. The bulk statement is a parameter of `EmployeeController.BulkUpdateStatus`, and nothing is assumed about its atomicity. The with-notes handler is not modelled.
- `employeeModel.filterByStatus` and the `filterEmployees` handler are left out. They pass a `'%…%'` string to `ANY($1)`, which has no clear meaning.
- Agreement between the history ledger and the employees table is left out. No statement of the model files writes a history record on creation or on a status change.
- `Promise.all` in the analytics handler is left out. The two queries are evaluated on the same state, one after the other.
- Concurrent requests are left out.
- Mirroring under the bulk status handler is not claimed. Its statement is a parameter of `EmployeeController.BulkUpdateStatus`, so the table it leaves is unconstrained, and `Sync` has no lemma for it.
- EmployeeModel.SearchByName: lower-casing is ASCII only, the term's `%` and `_` are taken literally rather than as `ILIKE` wildcards, and the name order is code-point order rather than the database collation.
- EmployeeContext.ApplyFilters: `toLowerCase` is ASCII only. Unicode case mapping is not modelled.
- Path parameters are integers in the model. The parsing of `:id`, `:employeeId` and `:noteId`, and the errors of a non-numeric value, are left out.
- StatusHistoryController.GetStaleEmployees: `days` is an integer or absent. A non-numeric query value, which makes the database raise an error, is not modelled.
- Database errors are left out, except the unique-email violation (400 on create, 500 on edit) and the bulk store failure. The catch blocks answer 500 for every other statement error, such as an unavailable database or a `hire_date` string the column type rejects; the model stores such a value and answers as on success.
- Foreign keys between notes, history and employees are left out, because the schema is not part of this model.
- The schema file is not part of this model, so three things about it are assumptions, not facts read from the code:
  - The timestamp columns default to the statement time. These are `created_at`, `updated_at` and `status_updated_at` of `employees`, `created_at` and `updated_at` of `notes`, and `changed_at` of `status_history`. The `Create` functions of `EmployeeModel`, `NoteModel` and `StatusHistoryModel` set them to `now`.
  - `employees.email` carries a unique index. The create handler's answer to error code 23505 implies one, and `EmployeeModel.Create` and `EmployeeModel.Update` refuse a taken email.
  - The id columns are serial primary keys.
- EmployeeModel.Update: the three fields of an edit are always present. The update handler checks nothing, so a request body without `name`, `email` or `hire_date` sends NULL for that column. The result depends on NOT NULL constraints of the schema (a stored NULL, or a 500), and it is not modelled.
- EmployeeController.UpdateEmployee: a request body without `name`, `email` or `hire_date` is not modelled, for the reason given for `EmployeeModel.Update`.
- StatusAnalytics.RecordedStages: `ORDER BY status` is modelled as code-point order. The database collation is not modelled, and any non-empty status string can be stored.
- StatusAnalytics.AverageTimeByStatus: its rows come in code-point order of the stage, for the reason given for `StatusAnalytics.RecordedStages`.
- The client's fetch functions are left out: the initial load, `fetchAnalytics`, and the one-call wrappers `updateStatus`, `updateEmployee` and `deleteEmployee`. They are only I/O.
- `selectAllFiltered` and `clearSelection` only set the selection. They appear inside `FilterBar.SelectAll`.
- `handleSearchChange` only sets the search text. It is the `search` field of `EmployeeContext.Filters`, which `EmployeeContext.ApplyFilters` reads.

## Findings

| source | as written | input that shows it | evidently intended | confidence | as-written member | corrected member |
|---|---|---|---|---|---|---|
| frontend/src/components/FilterBar.js:28-37 | "select all" and its checkbox compare only the lengths of the selection and of the filtered list; the selection survives a filter change | select employee B, then filter so that only employee A is shown: the checkbox is checked although A is not selected, and clicking it clears the selection instead of selecting A | check the box, and clear on click, only when every employee shown is selected | medium, not executed | FilterBar.LengthOnlySelectAll | FilterBar.SelectAllShownSelectsShown |
