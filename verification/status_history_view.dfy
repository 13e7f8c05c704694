/**
  The duration column of an employee's history timeline
  (frontend/src/components/StatusHistory.js). The timeline lists the
  employee's records newest first; each earlier record is labelled with the
  whole days until the record above it.
 */
module StatusHistoryView {

  import opened Base
  import opened Sorting
  import opened Strings
  import opened StatusHistoryModel

  /** The label for a number of whole days in a stage. */
  function DaysLabel(days: int): (text: string)
    ensures days == 0 <==> text == "Less than a day"
    ensures days == 1 <==> text == "1 day"
    ensures days >= 2 ==> text == NatString(days) + " days"
    ensures days < 0 ==> text == "-" + NatString(-days) + " days"
  {
    if days == 0 then "Less than a day"
    else if days == 1 then "1 day"
    else
      var text := IntString(days) + " days";
      assert text[0] == '-' || IsDigit(text[0]);
      assert |text| >= 6;
      text
  }

  /** Whole days (`Math.floor`) between the record at `index` and the one
      listed above it. */
  function DaysUntilNext(history: seq<HistoryRecord>, index: int): (days: int)
    requires 0 < index < |history|
    ensures days * MS_PER_DAY <= history[index - 1].changedAt - history[index].changedAt < days * MS_PER_DAY + MS_PER_DAY
  {
    DaysBetween(history[index].changedAt, history[index - 1].changedAt)
  }

  /** `calculateDuration`: "Current" for the first (newest) record;
      otherwise the days until the record above. The fallback to the
      current time for a record with nothing above it is kept as written,
      though only the first record has nothing above it. */
  function CalculateDuration(history: seq<HistoryRecord>, index: int, now: Millis): (text: string)
    requires 0 <= index < |history|
    ensures index == 0 <==> text == "Current"
    ensures index > 0 ==> text == DaysLabel(DaysUntilNext(history, index))
  {
    if index == 0 then "Current"
    else
      var next := if index > 0 then history[index - 1].changedAt else now;
      var text := DaysLabel(FloorDiv(next - history[index].changedAt, MS_PER_DAY));
      assert text[0] != 'C';
      text
  }

  /** The clock is never read: the fallback is unreachable. */
  lemma DurationIgnoresClock(history: seq<HistoryRecord>, index: int, now: Millis, later: Millis)
    requires 0 <= index < |history|
    ensures CalculateDuration(history, index, now) == CalculateDuration(history, index, later)
  {
  }

  /** In a history listed newest first every duration is a whole number of
      days no smaller than zero. */
  lemma SortedDurationsNonNegative(history: seq<HistoryRecord>, index: int)
    requires SortedBy(history, ChangedNoEarlier)
    requires 0 < index < |history|
    ensures DaysUntilNext(history, index) >= 0
  {
    assert ChangedNoEarlier(history[index - 1], history[index]);
  }

  /** A record followed within a day by the next is labelled "Less than
      a day". */
  lemma SameDayLabel(history: seq<HistoryRecord>, index: int, now: Millis)
    requires SortedBy(history, ChangedNoEarlier)
    requires 0 < index < |history|
    requires history[index - 1].changedAt - history[index].changedAt < MS_PER_DAY
    ensures CalculateDuration(history, index, now) == "Less than a day"
  {
    SortedDurationsNonNegative(history, index);
  }

  /** The timeline of one employee as the backend serves it has no negative
      duration. */
  lemma ServedTimelineNonNegative(l: Ledger, employeeId: Id, index: int)
    requires 0 < index < |GetByEmployeeId(l, employeeId)|
    ensures DaysUntilNext(GetByEmployeeId(l, employeeId), index) >= 0
  {
    var h := GetByEmployeeId(l, employeeId);
    assert SortedBy(h, ChangedNoEarlier);
    SortedDurationsNonNegative(h, index);
  }
}
