/**
  The request handlers for status history and analytics
  (backend/src/controllers/statusHistoryController.js). None of them writes
  or broadcasts anything.
 */
module StatusHistoryController {

  import opened Base
  import opened Seqs
  import opened Sorting
  import opened Tables
  import opened Replies
  import opened StatusHistoryModel
  import opened StatusAnalytics
  import EmployeeModel

  /** The two analytics series, answered together. */
  datatype Analytics = Analytics(averageTimeByStatus: seq<StatusAverage>, statusDistribution: seq<StatusCount>)

  /** What the history handlers answer with. */
  datatype HistoryBody =
    | Records(records: seq<HistoryRecord>)
    | Joined(joined: seq<JoinedRecord>)
    | Stale(stale: seq<StaleEmployee>)
    | Report(analytics: Analytics)

  /** The stale threshold when the query string gives none. */
  const DEFAULT_STALE_DAYS: int := 30

  /** `GET /history/employee/:employeeId`: that employee's records, newest
      first. */
  function GetEmployeeHistory(l: Ledger, employeeId: Id): (r: Reply<HistoryBody>)
    ensures r.Json? && r.status == 200 && r.value.Records?
    ensures forall h :: h in r.value.records <==> h in l.records && h.employeeId == employeeId
    ensures multiset(r.value.records) == multiset(Filter(OfEmployee(employeeId), l.records))
    ensures SortedBy(r.value.records, ChangedNoEarlier)
  {
    Json(200, Records(GetByEmployeeId(l, employeeId)))
  }

  /** `GET /history`: every record that belongs to an existing employee,
      with the employee's name and email, newest first. */
  function GetAllHistory(l: Ledger, employees: EmployeeModel.EmployeeTable): (r: Reply<HistoryBody>)
    ensures r.Json? && r.status == 200 && r.value.Joined?
    ensures |r.value.joined| == Count(EmployeeExists(employees.rows), l.records)
    ensures forall j :: j in r.value.joined ==> j.record in l.records && AnnotatedFrom(j, employees.rows)
    ensures forall h :: h in l.records ==>
      (HasKey(employees.rows, EmployeeModel.IdOf, h.employeeId) <==> exists j :: j in r.value.joined && j.record == h)
    ensures multiset(r.value.joined) == multiset(Join(l.records, employees.rows))
    ensures SortedBy(r.value.joined, JoinedNoEarlier)
  {
    Json(200, Joined(GetAll(l, employees)))
  }

  /** `GET /history/stale?status=…&days=…`: a missing or empty status is
      refused with 400; a missing `days` means 30. */
  function GetStaleEmployees(t: EmployeeModel.EmployeeTable, status: Option<string>, days: Option<int>, now: Millis): (r: Reply<HistoryBody>)
    ensures !Given(status) <==> r == Failure(400, "Status query parameter is required")
    ensures r.Json? ==> r.status == 200 && r.value.Stale?
    ensures r.Json? ==> forall e :: e in t.rows ==>
      (StaleEmployee(e, DaysInStatus(e, now)) in r.value.stale <==>
        e.currentStatus == status.value
        && DaysInStatus(e, now) >= (if days.Some? then days.value else DEFAULT_STALE_DAYS))
    ensures r.Json? ==>
      var threshold := if days.Some? then days.value else DEFAULT_STALE_DAYS;
      && |r.value.stale| == Count(StaleIn(status.value, threshold, now), t.rows)
      && (forall s :: s in r.value.stale ==>
            s.employee in t.rows && s.employee.currentStatus == status.value
            && s.daysInStatus == DaysInStatus(s.employee, now) >= threshold)
      && (forall i, j :: 0 <= i < j < |r.value.stale| ==>
            r.value.stale[i].employee.statusUpdatedAt <= r.value.stale[j].employee.statusUpdatedAt)
  {
    if !Given(status) then
      Failure(400, "Status query parameter is required")
    else
      var threshold := if days.Some? then days.value else DEFAULT_STALE_DAYS;
      Json(200, Stale(StatusHistoryModel.GetStaleEmployees(t, status.value, threshold, now)))
  }

  /** `GET /history/analytics`: both series, computed on the same state. */
  function GetAnalytics(l: Ledger, t: EmployeeModel.EmployeeTable, now: Millis): (r: Reply<HistoryBody>)
    ensures r.Json? && r.status == 200 && r.value.Report?
    ensures forall status :: AverageReported(r.value.analytics.averageTimeByStatus, status) <==> StageRecorded(l.records, status)
    ensures forall status :: CountReported(r.value.analytics.statusDistribution, status) <==> StageHeld(t.rows, status)
    ensures Sum(CountOf, r.value.analytics.statusDistribution) == |t.rows|
    ensures r.value.analytics == Analytics(AverageTimeByStatus(l, now), StatusDistribution(t))
  {
    Json(200, Report(Analytics(AverageTimeByStatus(l, now), StatusDistribution(t))))
  }
}
