/**
  The client's list against the server's table. A list mirrors a table when
  it holds one entry per row, carrying that row. The create, status-change,
  edit and delete handlers return the events they broadcast; delivering
  them to a mirroring list leaves a list that mirrors the table the handler
  left. This holds without any reordering or discarding of events on the
  client, because each of these handlers broadcasts at most one event and
  only after its statement succeeded. The bulk status handler is not
  covered: its statement is a parameter, so the table it leaves is
  unconstrained.
 */
module Sync {

  import opened Base
  import opened Seqs
  import opened Tables
  import opened Events
  import opened Replies
  import opened EmployeeModel
  import C = EmployeeContext
  import EmployeeController

  /** `cache` holds exactly one entry per row of `t`, carrying that row. */
  predicate Mirrors(cache: seq<C.Entry>, t: EmployeeTable) {
    && UniqueKeys(cache, C.EntryId)
    && (forall c :: c in cache ==> c.employee in t.rows)
    && (forall e :: e in t.rows ==> exists c :: c in cache && c.employee == e)
  }

  /** Delivering a single event is delivering it alone. */
  lemma DeliverOne(cache: seq<C.Entry>, ev: Event)
    ensures C.DeliverAll(cache, [ev]) == C.Deliver(cache, ev)
  {
    assert [ev][1..] == [];
  }

  /** A row created with a fresh id is mirrored by prepending it. */
  lemma CreateKeepsMirror(cache: seq<C.Entry>, t: EmployeeTable, req: EmployeeController.CreateRequest, now: Millis)
    requires Valid(t) && Mirrors(cache, t)
    ensures
      var o := EmployeeController.CreateEmployee(t, req, now);
      Mirrors(C.DeliverAll(cache, o.events), o.store)
  {
    var o := EmployeeController.CreateEmployee(t, req, now);
    if o.reply.Json? {
      var e := o.reply.value.employee;
      DeliverOne(cache, EmployeeCreated(e));
      PrependKeepsMirror(cache, t, e, o.store);
    } else {
      assert o.events == [] && o.store.rows == t.rows;
    }
  }

  /** A row appended to the table with a fresh id is mirrored by putting
      it in front of the list. */
  lemma PrependKeepsMirror(cache: seq<C.Entry>, t: EmployeeTable, e: Employee, after: EmployeeTable)
    requires Mirrors(cache, t) && Valid(after)
    requires after.rows == t.rows + [e]
    ensures Mirrors([C.Entry(e, None)] + cache, after)
  {
    var next := [C.Entry(e, None)] + cache;
    assert forall c :: c in cache ==> c.employee.id != e.id by {
      forall c | c in cache
        ensures c.employee.id != e.id
      {
        var i :| 0 <= i < |t.rows| && t.rows[i] == c.employee;
        assert after.rows[i] == c.employee && after.rows[|t.rows|] == e;
      }
    }
    forall i, j | 0 <= i < j < |next|
      ensures next[i].employee.id != next[j].employee.id
    {
      if i == 0 {
        assert next[j] == cache[j - 1];
        assert cache[j - 1] in cache;
      } else {
        assert next[i] == cache[i - 1] && next[j] == cache[j - 1];
      }
    }
    assert next[0] in next;
  }

  /** A table whose rows with key `id` were rewritten in place, and a list
      whose entries with that key now carry the rewritten row: mirroring
      carries over. */
  lemma RewriteKeepsMirror(cache: seq<C.Entry>, t: EmployeeTable, after: EmployeeTable, row: Employee, id: Id, next: seq<C.Entry>)
    requires Mirrors(cache, t) && Valid(after)
    requires |after.rows| == |t.rows|
    requires forall i :: 0 <= i < |t.rows| && t.rows[i].id != id ==> after.rows[i] == t.rows[i]
    requires forall i :: 0 <= i < |t.rows| && t.rows[i].id == id ==> after.rows[i].id == id
    requires row in after.rows && row.id == id
    requires |next| == |cache|
    requires forall i :: 0 <= i < |cache| && cache[i].employee.id == id ==> next[i].employee == row
    requires forall i :: 0 <= i < |cache| && cache[i].employee.id != id ==> next[i] == cache[i]
    ensures Mirrors(next, after)
  {
    assert forall i :: 0 <= i < |cache| ==> next[i].employee.id == cache[i].employee.id;
    forall c | c in next
      ensures c.employee in after.rows
    {
      var i :| 0 <= i < |next| && next[i] == c;
      if cache[i].employee.id != id {
        assert cache[i] in cache;
        var k :| 0 <= k < |t.rows| && t.rows[k] == cache[i].employee;
        assert after.rows[k] == c.employee;
      }
    }
    forall e | e in after.rows
      ensures exists c :: c in next && c.employee == e
    {
      var k :| 0 <= k < |after.rows| && after.rows[k] == e;
      assert t.rows[k] in t.rows;
      var c :| c in cache && c.employee == t.rows[k];
      var i :| 0 <= i < |cache| && cache[i] == c;
      if t.rows[k].id == id {
        var m :| 0 <= m < |after.rows| && after.rows[m] == row;
        assert e == row;
        assert next[i].employee == e;
      } else {
        assert next[i] == c;
      }
    }
  }

  /** A successful status change, delivered, keeps the list mirrored; a
      failed one changes neither side. */
  lemma UpdateStatusKeepsMirror(cache: seq<C.Entry>, t: EmployeeTable, id: Id, status: Option<string>, now: Millis)
    requires Valid(t) && Mirrors(cache, t)
    ensures
      var o := EmployeeController.UpdateEmployeeStatus(t, id, status, now);
      Mirrors(C.DeliverAll(cache, o.events), o.store)
  {
    var o := EmployeeController.UpdateEmployeeStatus(t, id, status, now);
    if o.reply.Json? {
      var row := o.reply.value.employee;
      DeliverOne(cache, EmployeeStatusUpdated(row));
      var w := UpdateStatus(t, id, status.value, now);
      assert forall i :: 0 <= i < |t.rows| && t.rows[i].id == id ==> StatusSet(t.rows[i], w.table.rows[i], status.value, now);
      RewriteKeepsMirror(cache, t, o.store, row, id, C.DeliverAll(cache, o.events));
    }
  }

  /** A successful edit, delivered, keeps the list mirrored; a failed one
      changes neither side. */
  lemma UpdateKeepsMirror(cache: seq<C.Entry>, t: EmployeeTable, id: Id, edit: EmployeeEdit, now: Millis)
    requires Valid(t) && Mirrors(cache, t)
    ensures
      var o := EmployeeController.UpdateEmployee(t, id, edit, now);
      Mirrors(C.DeliverAll(cache, o.events), o.store)
  {
    var o := EmployeeController.UpdateEmployee(t, id, edit, now);
    if o.reply.Json? {
      var row := o.reply.value.employee;
      DeliverOne(cache, EmployeeUpdated(row));
      assert C.DeliverAll(cache, o.events) == C.OnEmployeeUpdated(cache, row);
      EditKeepsMirror(cache, t, id, edit, now, o.store, row);
    } else {
      assert C.DeliverAll(cache, o.events) == cache && o.store == t;
    }
  }

  /** A stored edit of an existing row, delivered as `employeeUpdated`,
      keeps the list mirrored. */
  lemma EditKeepsMirror(cache: seq<C.Entry>, t: EmployeeTable, id: Id, edit: EmployeeEdit, now: Millis, after: EmployeeTable, row: Employee)
    requires Valid(t) && Mirrors(cache, t)
    requires Update(t, id, edit, now) == Stored(Written(after, Some(row)))
    ensures Mirrors(C.OnEmployeeUpdated(cache, row), after)
  {
    RewriteKeepsMirror(cache, t, after, row, id, C.OnEmployeeUpdated(cache, row));
  }


  /** A successful deletion, delivered, keeps the list mirrored; a failed
      one changes neither side. */
  lemma DeleteKeepsMirror(cache: seq<C.Entry>, t: EmployeeTable, id: Id)
    requires Valid(t) && Mirrors(cache, t)
    ensures
      var o := EmployeeController.DeleteEmployee(t, id);
      Mirrors(C.DeliverAll(cache, o.events), o.store)
  {
    var o := EmployeeController.DeleteEmployee(t, id);
    if o.reply.Json? {
      DeliverOne(cache, EmployeeDeleted(id));
      var next := C.DeliverAll(cache, o.events);
      assert next == C.OnEmployeeDeleted(cache, id);
      SubsequenceKeepsKeys(next, cache, C.EntryId);
      forall e | e in o.store.rows
        ensures exists c :: c in next && c.employee == e
      {
        var c :| c in cache && c.employee == e;
        assert c in next;
      }
    }
  }

  /** Note events leave every row of the list as it was, so they keep the
      list mirrored. */
  lemma NoteEventKeepsMirror(cache: seq<C.Entry>, t: EmployeeTable, ev: Event)
    requires Mirrors(cache, t)
    requires ev.NoteCreated? || ev.NoteUpdated? || ev.NoteDeleted?
    ensures Mirrors(C.Deliver(cache, ev), t)
  {
    var next := C.Deliver(cache, ev);
    assert forall i :: 0 <= i < |cache| ==> next[i].employee == cache[i].employee;
    forall c | c in next
      ensures c.employee in t.rows
    {
      var i :| 0 <= i < |next| && next[i] == c;
      assert cache[i] in cache;
    }
    forall e | e in t.rows
      ensures exists c :: c in next && c.employee == e
    {
      var c :| c in cache && c.employee == e;
      var i :| 0 <= i < |cache| && cache[i] == c;
      assert next[i] in next;
    }
  }

  /** The client sends a bulk change only with a non-empty selection, so
      the server never answers it with the missing-ids error. */
  lemma ClientBulkPassesIdsCheck(
    selected: seq<Id>, status: string, accepted: bool, t: EmployeeTable,
    store: (EmployeeTable, seq<Id>, string) -> Option<EmployeeController.BulkStored>)
    requires C.BulkUpdateStatus(selected, status, accepted).sent.Some?
    ensures
      var sent := C.BulkUpdateStatus(selected, status, accepted).sent.value;
      EmployeeController.BulkUpdateStatus(t, Some(sent.employeeIds), Some(sent.status), store).reply
        != Failure(400, "Employee IDs array is required")
  {
  }
}
