/**
  The two aggregate queries of the status history model
  (backend/src/models/statusHistoryModel.js): how long records stay in each
  stage, and how many employees sit in each stage now.

  The residency of a history record runs from its `changed_at` to the
  `changed_at` of the next record of the same employee
  (`LEAD(changed_at) OVER (PARTITION BY employee_id ORDER BY changed_at)`),
  or to `now` for the employee's latest record (`COALESCE(…,
  CURRENT_TIMESTAMP)`). The average per stage is kept exact, as the number
  of records and their total residency in milliseconds; the query divides
  the total by the count and by 86400 seconds.
 */
module StatusAnalytics {

  import opened Base
  import opened Seqs
  import opened Sorting
  import opened Strings
  import opened StatusHistoryModel
  import EmployeeModel

  /** A record and the instant its stage ended (`end_time`). */
  datatype Residency = Residency(record: HistoryRecord, endAt: Millis)

  /** `end_time - start_time`, in milliseconds. */
  function Duration(x: Residency): int {
    x.endAt - x.record.changedAt
  }

  /** `ORDER BY changed_at` inside a partition. */
  predicate ChangedNoLater(a: HistoryRecord, b: HistoryRecord) {
    a.changedAt <= b.changedAt
  }

  /** `LEAD(changed_at)` over one partition already in window order, with
      `now` for the last row. */
  function Lead(s: seq<HistoryRecord>, now: Millis): (r: seq<Residency>)
    ensures |r| == |s|
    ensures forall i :: 0 <= i < |s| ==> r[i].record == s[i]
    ensures forall i :: 0 <= i < |s| - 1 ==> r[i].endAt == s[i + 1].changedAt
    ensures |s| > 0 ==> r[|s| - 1].endAt == now
    decreases |s|
  {
    if |s| == 0 then []
    else if |s| == 1 then [Residency(s[0], now)]
    else [Residency(s[0], s[1].changedAt)] + Lead(s[1..], now)
  }

  /** Consecutive residencies of one employee telescope: together they span
      from the first record's `changed_at` to `now`. */
  lemma {:induction false} LeadTelescopes(s: seq<HistoryRecord>, now: Millis)
    requires |s| > 0
    ensures Sum(Duration, Lead(s, now)) == now - s[0].changedAt
    decreases |s|
  {
    var r := Lead(s, now);
    if |s| == 1 {
      assert r[1..] == [];
    } else {
      LeadTelescopes(s[1..], now);
      assert r[1..] == Lead(s[1..], now);
      assert s[1..][0] == s[1];
    }
  }

  /** The residency belongs to a record in stage `status` (`GROUP BY status`). */
  function ResidencyIn(status: string): Residency -> bool {
    (x: Residency) => x.record.status == status
  }

  /** The record is in stage `status`. */
  function InStatus(status: string): HistoryRecord -> bool {
    (h: HistoryRecord) => h.status == status
  }

  /** The residency belongs to a record of `employeeId`. */
  function ResidencyOf(employeeId: Id): Residency -> bool {
    (x: Residency) => x.record.employeeId == employeeId
  }

  function RecordOf(x: Residency): HistoryRecord { x.record }

  /** `x` ends at the next change of its employee in `h`: either at the
      `changed_at` of another row of the same employee (another row, not
      `x`'s own, though possibly an identical copy of it) no earlier than its
      own, with no record of that employee strictly in between, or at `now`
      when no record of that employee is later than its own. */
  predicate EndsAtNextChange(x: Residency, h: seq<HistoryRecord>, now: Millis) {
    || (&& x.endAt == now
        && forall y :: y in h && y.employeeId == x.record.employeeId ==> y.changedAt <= x.record.changedAt)
    || (&& (exists y :: y in multiset(h) - multiset{x.record} && y.employeeId == x.record.employeeId && y.changedAt == x.endAt)
        && x.endAt >= x.record.changedAt
        && forall y :: y in h && y.employeeId == x.record.employeeId ==>
             y.changedAt <= x.record.changedAt || y.changedAt >= x.endAt)
  }

  /** One employee's records in window order
      (`PARTITION BY employee_id ORDER BY changed_at`). */
  function PartitionOrder(h: seq<HistoryRecord>, employeeId: Id): (sorted: seq<HistoryRecord>)
    ensures multiset(sorted) == multiset(Filter(OfEmployee(employeeId), h))
    ensures forall y :: y in sorted <==> y in h && y.employeeId == employeeId
    ensures SortedBy(sorted, ChangedNoLater)
  {
    var mine := Filter(OfEmployee(employeeId), h);
    assert TotalPreorder(ChangedNoLater);
    SortByMembers(mine, ChangedNoLater);
    SortBy(mine, ChangedNoLater)
  }

  /** One employee's residencies: its records in window order, led. */
  function PartitionResidencies(h: seq<HistoryRecord>, employeeId: Id, now: Millis): (r: seq<Residency>)
    ensures |r| == Count(OfEmployee(employeeId), h)
    ensures forall x :: x in r ==> x.record in h && x.record.employeeId == employeeId
  {
    FilterLength(OfEmployee(employeeId), h);
    var sorted := PartitionOrder(h, employeeId);
    var r := Lead(sorted, now);
    assert forall x :: x in r ==> x.record in sorted by {
      forall x | x in r
        ensures x.record in sorted
      {
        var i :| 0 <= i < |r| && r[i] == x;
        assert sorted[i] in sorted;
      }
    }
    r
  }

  /** Each residency of a partition ends at its employee's next change. */
  lemma PartitionEndsAtNextChange(h: seq<HistoryRecord>, employeeId: Id, now: Millis)
    ensures forall x :: x in PartitionResidencies(h, employeeId, now) ==> EndsAtNextChange(x, h, now)
  {
    FilterSplitMultiset(OfEmployee(employeeId), h);
    LeadEndsAtNextChange(h, employeeId, PartitionOrder(h, employeeId), now);
  }

  /** Each partition has as many residencies in a stage as the employee has
      records in it. */
  lemma PartitionCountByStatus(h: seq<HistoryRecord>, employeeId: Id, now: Millis, status: string)
    ensures Count(ResidencyIn(status), PartitionResidencies(h, employeeId, now)) == Count(InStatus(status), Filter(OfEmployee(employeeId), h))
  {
    var sorted := PartitionOrder(h, employeeId);
    CountLead(sorted, now, status);
    CountPermutation(InStatus(status), sorted, Filter(OfEmployee(employeeId), h));
  }

  /** Leading the sorted records of one employee ends every residency at the
      employee's next change. */
  lemma LeadEndsAtNextChange(h: seq<HistoryRecord>, employeeId: Id, sorted: seq<HistoryRecord>, now: Millis)
    requires forall y :: y in sorted <==> y in h && y.employeeId == employeeId
    requires multiset(sorted) <= multiset(h)
    requires SortedBy(sorted, ChangedNoLater)
    ensures forall x :: x in Lead(sorted, now) ==> EndsAtNextChange(x, h, now)
  {
    var r := Lead(sorted, now);
    forall x | x in r
      ensures EndsAtNextChange(x, h, now)
    {
      var i :| 0 <= i < |r| && r[i] == x;
      assert x.record == sorted[i] && sorted[i] in sorted;
      forall y | y in h && y.employeeId == x.record.employeeId
        ensures y.changedAt <= x.record.changedAt || (i + 1 < |sorted| && y.changedAt >= sorted[i + 1].changedAt)
      {
        assert y in sorted;
        var k :| 0 <= k < |sorted| && sorted[k] == y;
        if k > i {
          if k > i + 1 {
            assert ChangedNoLater(sorted[i + 1], sorted[k]);
          }
        } else if k < i {
          assert ChangedNoLater(sorted[k], sorted[i]);
        }
      }
      if i + 1 < |sorted| {
        assert sorted[i + 1] in sorted;
        assert ChangedNoLater(sorted[i], sorted[i + 1]);
        NeighbourIsAnotherRow(h, sorted, i);
      }
    }
  }

  /** Two neighbours of a sub-multiset of `h` are two rows of `h`, even when
      they are equal values. */
  lemma NeighbourIsAnotherRow(h: seq<HistoryRecord>, sorted: seq<HistoryRecord>, i: int)
    requires 0 <= i && i + 1 < |sorted| && multiset(sorted) <= multiset(h)
    ensures sorted[i + 1] in multiset(h) - multiset{sorted[i]}
  {
    assert sorted == sorted[..i] + [sorted[i], sorted[i + 1]] + sorted[i + 2..];
    assert multiset{sorted[i], sorted[i + 1]} <= multiset(sorted);
  }

  /** Leading keeps the stage of every record, so per-stage counts agree. */
  lemma {:induction false} CountLead(s: seq<HistoryRecord>, now: Millis, status: string)
    ensures Count(ResidencyIn(status), Lead(s, now)) == Count(InStatus(status), s)
    decreases |s|
  {
    if |s| > 0 {
      var r := Lead(s, now);
      CountLead(s[1..], now, status);
      assert r[1..] == Lead(s[1..], now);
    }
  }

  /** The ledger without the records of its first record's employee. */
  function Rest(h: seq<HistoryRecord>): (r: seq<HistoryRecord>)
    requires |h| > 0
    ensures |r| < |h|
    ensures forall y :: y in r <==> y in h && y.employeeId != h[0].employeeId
  {
    assert !Not(OfEmployee(h[0].employeeId))(h[0]);
    Filter(Not(OfEmployee(h[0].employeeId)), h)
  }

  /** Every record of the ledger with its residency: the partitions one
      employee at a time, in order of each employee's first appearance. */
  function Intervals(h: seq<HistoryRecord>, now: Millis): (r: seq<Residency>)
    ensures |r| == |h|
    ensures forall x :: x in r ==> x.record in h
    decreases |h|
  {
    if |h| == 0 then []
    else
      var e := h[0].employeeId;
      var r := PartitionResidencies(h, e, now) + Intervals(Rest(h), now);
      assert |r| == |h| by {
        FilterLength(Not(OfEmployee(e)), h);
        CountComplement(OfEmployee(e), h);
      }
      r
  }

  /** One step of `Intervals`. */
  lemma IntervalsUnfold(h: seq<HistoryRecord>, now: Millis)
    requires |h| > 0
    ensures Intervals(h, now) == PartitionResidencies(h, h[0].employeeId, now) + Intervals(Rest(h), now)
  {
  }

  /** Each residency of the ledger ends at its employee's next change, or at
      `now` for the employee's latest record (`COALESCE(LEAD(…),
      CURRENT_TIMESTAMP)`). */
  lemma {:induction false} IntervalsEndAtNextChange(h: seq<HistoryRecord>, now: Millis)
    ensures forall x :: x in Intervals(h, now) ==> EndsAtNextChange(x, h, now)
    decreases |h|
  {
    if |h| > 0 {
      var e := h[0].employeeId;
      IntervalsUnfold(h, now);
      PartitionEndsAtNextChange(h, e, now);
      IntervalsEndAtNextChange(Rest(h), now);
      forall x | x in Intervals(Rest(h), now)
        ensures EndsAtNextChange(x, h, now)
      {
        RestKeepsOthers(h, now, x);
      }
    }
  }

  /** For a record outside the first employee, the rest of the ledger holds
      all records of its employee, so its next change is the same there. */
  lemma RestKeepsOthers(h: seq<HistoryRecord>, now: Millis, x: Residency)
    requires |h| > 0 && x.record in Rest(h) && EndsAtNextChange(x, Rest(h), now)
    ensures EndsAtNextChange(x, h, now)
  {
    FilterSplitMultiset(OfEmployee(h[0].employeeId), h);
    assert forall y :: y in h && y.employeeId == x.record.employeeId ==> y in Rest(h);
  }

  /** Leading keeps every record in its place. */
  lemma LeadRecords(s: seq<HistoryRecord>, now: Millis)
    ensures Map(RecordOf, Lead(s, now)) == s
  {
  }

  /** The residencies are one per row of the ledger: each record occurs
      among them exactly as often as in the ledger. */
  lemma {:induction false} IntervalsCoverRecords(h: seq<HistoryRecord>, now: Millis)
    ensures multiset(Map(RecordOf, Intervals(h, now))) == multiset(h)
    decreases |h|
  {
    if |h| > 0 {
      var e := h[0].employeeId;
      var part := PartitionResidencies(h, e, now);
      var rest := Intervals(Rest(h), now);
      var sorted := PartitionOrder(h, e);
      IntervalsUnfold(h, now);
      IntervalsCoverRecords(Rest(h), now);
      MapConcat(RecordOf, part, rest);
      assert part == Lead(sorted, now);
      LeadRecords(sorted, now);
      FilterSplitMultiset(OfEmployee(e), h);
      calc {
        multiset(Map(RecordOf, Intervals(h, now)));
        multiset(Map(RecordOf, part)) + multiset(Map(RecordOf, rest));
        multiset(sorted) + multiset(Rest(h));
        multiset(Filter(OfEmployee(e), h)) + multiset(Filter(Not(OfEmployee(e)), h));
      }
    }
  }

  /** When no two records of an employee share a `changed_at`, the end of a
      record's residency is determined: any two residencies of the same
      record that both end at the next change end at the same instant. With
      `IntervalsCoverRecords`, this pins every residency of `Intervals`, and
      so every total of `AverageTimeByStatus`. */
  lemma ResidencyDetermined(h: seq<HistoryRecord>, now: Millis, x1: Residency, x2: Residency)
    requires forall i, j :: 0 <= i < j < |h| && h[i].employeeId == h[j].employeeId ==> h[i].changedAt != h[j].changedAt
    requires x1.record == x2.record && x1.record in h
    requires EndsAtNextChange(x1, h, now) && EndsAtNextChange(x2, h, now)
    ensures x1.endAt == x2.endAt
  {
    var r := x1.record;
    assert Distinct(h) by {
      forall i, j | 0 <= i < j < |h|
        ensures h[i] != h[j]
      {
        if h[i].employeeId == h[j].employeeId {
          assert h[i].changedAt != h[j].changedAt;
        }
      }
    }
    DistinctMultiset(h);
    forall y | y in multiset(h) - multiset{r} && y.employeeId == r.employeeId
      ensures y.changedAt != r.changedAt
    {
      assert y != r;
      var i :| 0 <= i < |h| && h[i] == y;
      var j :| 0 <= j < |h| && h[j] == r;
      assert i != j;
    }
    NextChangeNotLater(h, now, x1, x2);
    NextChangeNotLater(h, now, x2, x1);
  }

  /** Of two residencies of one record that both end at a next change,
      neither skips over the other's end. */
  lemma NextChangeNotLater(h: seq<HistoryRecord>, now: Millis, a: Residency, b: Residency)
    requires a.record == b.record
    requires EndsAtNextChange(a, h, now) && EndsAtNextChange(b, h, now)
    requires forall y :: y in multiset(h) - multiset{a.record} && y.employeeId == a.record.employeeId ==> y.changedAt != a.record.changedAt
    ensures b.endAt <= a.endAt
  {
    var r := a.record;
    if exists y :: y in multiset(h) - multiset{r} && y.employeeId == r.employeeId && y.changedAt == a.endAt {
      var y :| y in multiset(h) - multiset{r} && y.employeeId == r.employeeId && y.changedAt == a.endAt;
      assert y in h;
    }
    if exists y :: y in multiset(h) - multiset{r} && y.employeeId == r.employeeId && y.changedAt == b.endAt {
      var y :| y in multiset(h) - multiset{r} && y.employeeId == r.employeeId && y.changedAt == b.endAt;
      assert y in h;
    }
  }

  /** Every record of the ledger gets exactly one residency, so the number
      of residencies in a stage is the number of records in that stage
      (`count(*)` of the average query). */
  lemma {:induction false} IntervalsCountByStatus(h: seq<HistoryRecord>, now: Millis, status: string)
    ensures Count(ResidencyIn(status), Intervals(h, now)) == Count(InStatus(status), h)
    decreases |h|
  {
    if |h| > 0 {
      var e := h[0].employeeId;
      IntervalsUnfold(h, now);
      IntervalsCountByStatus(Rest(h), now, status);
      CountConcat(ResidencyIn(status), PartitionResidencies(h, e, now), Intervals(Rest(h), now));
      PartitionCountByStatus(h, e, now, status);
      CountSplit(InStatus(status), OfEmployee(e), h);
    }
  }

  /** With `now` no earlier than any change, no residency is negative. */
  lemma IntervalsNonNegative(h: seq<HistoryRecord>, now: Millis)
    requires forall y :: y in h ==> y.changedAt <= now
    ensures forall x :: x in Intervals(h, now) ==> Duration(x) >= 0
  {
    IntervalsEndAtNextChange(h, now);
    forall x | x in Intervals(h, now)
      ensures Duration(x) >= 0
    {
      assert x.record in h;
      assert EndsAtNextChange(x, h, now);
    }
  }

  /** `first` is a record of `employeeId` with the earliest `changed_at`. */
  predicate IsFirstChange(first: HistoryRecord, h: seq<HistoryRecord>, employeeId: Id) {
    && first in h
    && first.employeeId == employeeId
    && forall y :: y in h && y.employeeId == employeeId ==> first.changedAt <= y.changedAt
  }

  /** The residencies of `employeeId` in the intervals of `h`. */
  function ResidenciesOf(h: seq<HistoryRecord>, now: Millis, employeeId: Id): seq<Residency> {
    Filter(ResidencyOf(employeeId), Intervals(h, now))
  }

  /** One employee's residencies add up to the time from its earliest
      recorded change to `now`. */
  lemma IntervalsTelescope(h: seq<HistoryRecord>, now: Millis, employeeId: Id)
    requires exists y :: y in h && y.employeeId == employeeId
    ensures exists first :: IsFirstChange(first, h, employeeId) && Sum(Duration, ResidenciesOf(h, now, employeeId)) == now - first.changedAt
  {
    var first := TelescopeFrom(h, now, employeeId);
  }

  /** `IntervalsTelescope`, naming the earliest record. */
  lemma {:induction false} TelescopeFrom(h: seq<HistoryRecord>, now: Millis, employeeId: Id) returns (first: HistoryRecord)
    requires exists y :: y in h && y.employeeId == employeeId
    ensures IsFirstChange(first, h, employeeId)
    ensures Sum(Duration, ResidenciesOf(h, now, employeeId)) == now - first.changedAt
    decreases |h|
  {
    if h[0].employeeId == employeeId {
      first := HeadPartitionTelescopes(h, now);
    } else {
      SplitAtHead(h, now, employeeId);
      var y :| y in h && y.employeeId == employeeId;
      assert y in Rest(h);
      first := TelescopeFrom(Rest(h), now, employeeId);
      FirstChangeInRest(h, employeeId, first);
    }
  }

  /** The earliest change of an employee other than the first one is the
      same in the rest of the ledger. */
  lemma FirstChangeInRest(h: seq<HistoryRecord>, employeeId: Id, first: HistoryRecord)
    requires |h| > 0 && h[0].employeeId != employeeId && IsFirstChange(first, Rest(h), employeeId)
    ensures IsFirstChange(first, h, employeeId)
  {
    assert forall y :: y in h && y.employeeId == employeeId ==> y in Rest(h);
  }

  /** The first employee of the ledger: its residencies are its partition,
      which telescopes. */
  lemma HeadPartitionTelescopes(h: seq<HistoryRecord>, now: Millis) returns (first: HistoryRecord)
    requires |h| > 0
    ensures IsFirstChange(first, h, h[0].employeeId)
    ensures Sum(Duration, ResidenciesOf(h, now, h[0].employeeId)) == now - first.changedAt
  {
    var e := h[0].employeeId;
    HeadResidencies(h, now);
    var sorted := PartitionOrder(h, e);
    assert h[0] in sorted;
    LeadTelescopes(sorted, now);
    first := sorted[0];
    SortedHeadIsFirst(h, e, sorted);
  }

  /** The head of an employee's partition is its earliest change. */
  lemma SortedHeadIsFirst(h: seq<HistoryRecord>, employeeId: Id, sorted: seq<HistoryRecord>)
    requires |sorted| > 0 && SortedBy(sorted, ChangedNoLater)
    requires forall y :: y in sorted <==> y in h && y.employeeId == employeeId
    ensures IsFirstChange(sorted[0], h, employeeId)
  {
    assert sorted[0] in sorted;
    forall y | y in h && y.employeeId == employeeId
      ensures sorted[0].changedAt <= y.changedAt
    {
      assert y in sorted;
      var k :| 0 <= k < |sorted| && sorted[k] == y;
      if k > 0 {
        assert ChangedNoLater(sorted[0], sorted[k]);
      }
    }
  }

  /** The first employee's residencies in the ledger's intervals are exactly
      its partition. */
  lemma HeadResidencies(h: seq<HistoryRecord>, now: Millis)
    requires |h| > 0
    ensures ResidenciesOf(h, now, h[0].employeeId) == Lead(PartitionOrder(h, h[0].employeeId), now)
  {
    var e := h[0].employeeId;
    var part := PartitionResidencies(h, e, now);
    var rest := Intervals(Rest(h), now);
    IntervalsUnfold(h, now);
    FilterConcat(ResidencyOf(e), part, rest);
    FilterAll(ResidencyOf(e), part);
    forall x | x in rest
      ensures !ResidencyOf(e)(x)
    {
      assert x.record in Rest(h);
    }
    FilterNone(ResidencyOf(e), rest);
  }

  /** The residencies of an employee other than the first one of the ledger
      all come from the rest of the ledger. */
  lemma SplitAtHead(h: seq<HistoryRecord>, now: Millis, employeeId: Id)
    requires |h| > 0 && h[0].employeeId != employeeId
    ensures ResidenciesOf(h, now, employeeId) == ResidenciesOf(Rest(h), now, employeeId)
  {
    var e := h[0].employeeId;
    var part := PartitionResidencies(h, e, now);
    IntervalsUnfold(h, now);
    FilterConcat(ResidencyOf(employeeId), part, Intervals(Rest(h), now));
    FilterNone(ResidencyOf(employeeId), part);
  }

  /** A row of the average query: the stage, `count(*)`, and the total
      residency in milliseconds that `AVG(…)` divides by the count. */
  datatype StatusAverage = StatusAverage(status: string, count: nat, totalMs: int)

  function StatusOf(h: HistoryRecord): string { h.status }

  /** The aggregate row of one stage over the residencies `ivs`. */
  function Summarize(ivs: seq<Residency>): string -> StatusAverage {
    (status: string) => StatusAverage(status, Count(ResidencyIn(status), ivs), Sum(Duration, Filter(ResidencyIn(status), ivs)))
  }

  /** Some record of `h` is in stage `status`. */
  predicate StageRecorded(h: seq<HistoryRecord>, status: string) {
    exists x :: x in h && x.status == status
  }

  /** Some row of `r` reports stage `status`. */
  predicate AverageReported(r: seq<StatusAverage>, status: string) {
    exists a :: a in r && a.status == status
  }

  /** The distinct stages of the ledger in increasing order (`GROUP BY
      status ORDER BY status`). */
  function RecordedStages(h: seq<HistoryRecord>): (statuses: seq<string>)
    ensures StrictlySortedBy(statuses, Lt)
    ensures forall status :: status in statuses <==> StageRecorded(h, status)
  {
    LtIsStrictTotalOrder();
    MapMembers(StatusOf, h);
    SortedDistinct(Map(StatusOf, h), Lt)
  }

  /** `getAverageTimeByStatus`: one row per stage occurring in the ledger,
      in increasing stage order, counting that stage's records and adding up
      their residencies. */
  function AverageTimeByStatus(l: Ledger, now: Millis): (r: seq<StatusAverage>)
    ensures forall i, j :: 0 <= i < j < |r| ==> Lt(r[i].status, r[j].status)
    ensures forall status :: AverageReported(r, status) <==> StageRecorded(l.records, status)
    ensures forall a :: a in r ==> a.count == Count(InStatus(a.status), l.records) && a.count > 0
    ensures forall a :: a in r ==> a.totalMs == Sum(Duration, Filter(ResidencyIn(a.status), Intervals(l.records, now)))
  {
    var statuses := RecordedStages(l.records);
    var r := Map(Summarize(Intervals(l.records, now)), statuses);
    AverageRows(l.records, now, statuses, r);
    r
  }

  lemma AverageRows(h: seq<HistoryRecord>, now: Millis, statuses: seq<string>, r: seq<StatusAverage>)
    requires forall status :: status in statuses <==> StageRecorded(h, status)
    requires r == Map(Summarize(Intervals(h, now)), statuses)
    ensures forall status :: AverageReported(r, status) <==> StageRecorded(h, status)
    ensures forall a :: a in r ==> a.count == Count(InStatus(a.status), h) && a.count > 0
    ensures forall a :: a in r ==> a.totalMs == Sum(Duration, Filter(ResidencyIn(a.status), Intervals(h, now)))
  {
    var ivs := Intervals(h, now);
    SummaryRows(ivs, statuses, r);
    forall status | StageRecorded(h, status)
      ensures AverageReported(r, status)
    {
      var i :| 0 <= i < |statuses| && statuses[i] == status;
      assert r[i] in r;
    }
    forall a | a in r
      ensures a.count == Count(InStatus(a.status), h) && a.count > 0
    {
      RecordedStageCount(h, now, a.status);
    }
  }

  /** A stage that occurs in the ledger has as many residencies as records,
      and at least one. */
  lemma RecordedStageCount(h: seq<HistoryRecord>, now: Millis, status: string)
    requires StageRecorded(h, status)
    ensures Count(ResidencyIn(status), Intervals(h, now)) == Count(InStatus(status), h) > 0
  {
    IntervalsCountByStatus(h, now, status);
    var x :| x in h && x.status == status;
    assert InStatus(status)(x);
  }

  /** Every summary row is the summary of one of the listed stages. */
  lemma SummaryRows(ivs: seq<Residency>, statuses: seq<string>, r: seq<StatusAverage>)
    requires r == Map(Summarize(ivs), statuses)
    ensures forall a :: a in r ==> a.status in statuses && a == Summarize(ivs)(a.status)
  {
    forall a | a in r
      ensures a.status in statuses && a == Summarize(ivs)(a.status)
    {
      var i :| 0 <= i < |r| && r[i] == a;
      assert statuses[i] in statuses;
    }
  }

  /** With `now` no earlier than any change, every total is non-negative,
      and so is every average. */
  lemma AveragesNonNegative(l: Ledger, now: Millis)
    requires forall h :: h in l.records ==> h.changedAt <= now
    ensures forall a :: a in AverageTimeByStatus(l, now) ==> a.totalMs >= 0
  {
    var ivs := Intervals(l.records, now);
    IntervalsNonNegative(l.records, now);
    forall a | a in AverageTimeByStatus(l, now)
      ensures a.totalMs >= 0
    {
      SumNonNegative(Duration, Filter(ResidencyIn(a.status), ivs));
    }
  }

  /** A row of the distribution query: a stage and how many employees are in
      it now. */
  datatype StatusCount = StatusCount(status: string, count: nat)

  function CountOf(c: StatusCount): int { c.count }

  /** The employee is in stage `status` now. */
  function Holds(status: string): EmployeeModel.Employee -> bool {
    (e: EmployeeModel.Employee) => e.currentStatus == status
  }

  function CurrentStatusOf(e: EmployeeModel.Employee): string { e.currentStatus }

  /** `ORDER BY count DESC`. */
  predicate CountNoLess(a: StatusCount, b: StatusCount) {
    a.count >= b.count
  }

  /** One row per listed stage with its number of employees
      (`GROUP BY current_status`). */
  function Groups(statuses: seq<string>, rows: seq<EmployeeModel.Employee>): (g: seq<StatusCount>)
    ensures |g| == |statuses|
    ensures forall i :: 0 <= i < |statuses| ==> g[i] == StatusCount(statuses[i], Count(Holds(statuses[i]), rows))
    decreases |statuses|
  {
    if |statuses| == 0 then []
    else [StatusCount(statuses[0], Count(Holds(statuses[0]), rows))] + Groups(statuses[1..], rows)
  }

  /** Some employee is in stage `status` now. */
  predicate StageHeld(rows: seq<EmployeeModel.Employee>, status: string) {
    exists e :: e in rows && e.currentStatus == status
  }

  /** Some row of `r` reports stage `status`. */
  predicate CountReported(r: seq<StatusCount>, status: string) {
    exists c :: c in r && c.status == status
  }

  /** The distinct current stages, in increasing order. */
  function HeldStages(rows: seq<EmployeeModel.Employee>): (statuses: seq<string>)
    ensures Distinct(statuses)
    ensures forall status :: status in statuses <==> StageHeld(rows, status)
  {
    LtIsStrictTotalOrder();
    MapMembers(CurrentStatusOf, rows);
    var statuses := SortedDistinct(Map(CurrentStatusOf, rows), Lt);
    assert Distinct(statuses) by {
      forall i, j | 0 <= i < j < |statuses|
        ensures statuses[i] != statuses[j]
      {
        StrictlySortedDistinct(statuses, Lt, i, j);
      }
    }
    statuses
  }

  /** `SELECT current_status AS status, COUNT(*) FROM employees GROUP BY
      current_status ORDER BY count DESC`: one row per stage some employee
      is in, with its head count, largest first; the counts add up to the
      number of employees. */
  function StatusDistribution(t: EmployeeModel.EmployeeTable): (r: seq<StatusCount>)
    ensures forall status :: CountReported(r, status) <==> StageHeld(t.rows, status)
    ensures forall c :: c in r ==> c.count == Count(Holds(c.status), t.rows) && c.count > 0
    ensures forall i, j :: 0 <= i < j < |r| ==> r[i].status != r[j].status
    ensures SortedBy(r, CountNoLess)
    ensures Sum(CountOf, r) == |t.rows|
  {
    var statuses := HeldStages(t.rows);
    var g := Groups(statuses, t.rows);
    assert TotalPreorder(CountNoLess);
    var r := SortBy(g, CountNoLess);
    GroupRows(t.rows, statuses);
    PermutedGroups(t.rows, g, r);
    SumPermutation(CountOf, r, g);
    GroupsAddUp(statuses, t.rows);
    r
  }

  /** The grouped rows before sorting: one per held stage, with its count,
      and no stage twice. */
  lemma GroupRows(rows: seq<EmployeeModel.Employee>, statuses: seq<string>)
    requires Distinct(statuses)
    requires forall status :: status in statuses <==> StageHeld(rows, status)
    ensures forall status :: CountReported(Groups(statuses, rows), status) <==> StageHeld(rows, status)
    ensures forall c :: c in Groups(statuses, rows) ==> c.count == Count(Holds(c.status), rows) && c.count > 0
    ensures forall i, j :: 0 <= i < j < |Groups(statuses, rows)| ==> Groups(statuses, rows)[i].status != Groups(statuses, rows)[j].status
  {
    var g := Groups(statuses, rows);
    forall status | StageHeld(rows, status)
      ensures CountReported(g, status)
    {
      var i :| 0 <= i < |statuses| && statuses[i] == status;
      assert g[i] in g;
    }
    forall c | c in g
      ensures StageHeld(rows, c.status) && c.count == Count(Holds(c.status), rows) && c.count > 0
    {
      var i :| 0 <= i < |g| && g[i] == c;
      assert statuses[i] in statuses;
      var e :| e in rows && e.currentStatus == c.status;
      assert Holds(c.status)(e);
    }
  }

  /** Sorting the grouped rows keeps what they report, and keeps stages
      apart. */
  lemma PermutedGroups(rows: seq<EmployeeModel.Employee>, g: seq<StatusCount>, r: seq<StatusCount>)
    requires multiset(r) == multiset(g)
    requires forall status :: CountReported(g, status) <==> StageHeld(rows, status)
    requires forall c :: c in g ==> c.count == Count(Holds(c.status), rows) && c.count > 0
    requires forall i, j :: 0 <= i < j < |g| ==> g[i].status != g[j].status
    ensures forall status :: CountReported(r, status) <==> StageHeld(rows, status)
    ensures forall c :: c in r ==> c.count == Count(Holds(c.status), rows) && c.count > 0
    ensures forall i, j :: 0 <= i < j < |r| ==> r[i].status != r[j].status
  {
    forall c
      ensures c in r <==> c in g
    {
      assert c in r <==> c in multiset(r);
      assert c in g <==> c in multiset(g);
    }
    assert Distinct(g);
    PermutationDistinct(g, r);
    forall i, j | 0 <= i < j < |r|
      ensures r[i].status != r[j].status
    {
      assert r[i] in r && r[j] in r;
      assert r[i] != r[j];
    }
  }

  /** The head counts of distinct stages covering every employee add up to
      the number of employees. */
  lemma {:induction false} GroupsAddUp(statuses: seq<string>, rows: seq<EmployeeModel.Employee>)
    requires Distinct(statuses)
    requires forall e :: e in rows ==> e.currentStatus in statuses
    ensures Sum(CountOf, Groups(statuses, rows)) == |rows|
    decreases |rows|
  {
    if |rows| == 0 {
      GroupsOfNothing(statuses, rows);
    } else {
      GroupsAddUp(statuses, rows[1..]);
      GroupsCons(statuses, rows);
      assert rows[0] in rows;
    }
  }

  lemma {:induction false} GroupsOfNothing(statuses: seq<string>, rows: seq<EmployeeModel.Employee>)
    requires |rows| == 0
    ensures Sum(CountOf, Groups(statuses, rows)) == 0
    decreases |statuses|
  {
    if |statuses| > 0 {
      GroupsOfNothing(statuses[1..], rows);
      assert Groups(statuses, rows)[1..] == Groups(statuses[1..], rows);
    }
  }

  /** Adding one employee adds one to the count of its stage, if listed. */
  lemma {:induction false} GroupsCons(statuses: seq<string>, rows: seq<EmployeeModel.Employee>)
    requires Distinct(statuses) && |rows| > 0
    ensures Sum(CountOf, Groups(statuses, rows)) == Sum(CountOf, Groups(statuses, rows[1..])) + (if rows[0].currentStatus in statuses then 1 else 0)
    decreases |statuses|
  {
    if |statuses| > 0 {
      var tail := statuses[1..];
      assert Distinct(tail) by {
        forall i, j | 0 <= i < j < |tail|
          ensures tail[i] != tail[j]
        {
          assert tail[i] == statuses[i + 1] && tail[j] == statuses[j + 1];
        }
      }
      GroupsCons(tail, rows);
      assert Groups(statuses, rows)[1..] == Groups(tail, rows);
      assert Groups(statuses, rows[1..])[1..] == Groups(tail, rows[1..]);
      assert rows[0].currentStatus in statuses <==> rows[0].currentStatus == statuses[0] || rows[0].currentStatus in tail;
      if rows[0].currentStatus == statuses[0] {
        assert statuses[0] !in tail;
      }
    }
  }
}
