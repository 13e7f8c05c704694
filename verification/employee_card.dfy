/**
  The figures an employee card shows (frontend/src/components/EmployeeCard.js):
  whole days in the current stage, the stale flag, the "last updated" label
  and whether the card is selected. `new Date()` is the parameter `now`.
 */
module EmployeeCard {

  import opened Base
  import opened Strings
  import opened EmployeeContext
  import StatusHistoryModel

  /** A card is flagged once its days in stage exceed this. */
  const STALE_AFTER_DAYS: int := 30

  /** `getDaysInStatus`: whole days since the stage was entered, rounded
      down (`Math.floor`), so negative when the timestamp lies ahead of
      the client's clock. */
  function DaysInStatus(e: Employee, now: Millis): (days: int)
    ensures days * MS_PER_DAY <= now - e.statusUpdatedAt < days * MS_PER_DAY + MS_PER_DAY
  {
    DaysBetween(e.statusUpdatedAt, now)
  }

  /** `isStale`: strictly more than 30 days in the stage. */
  predicate IsStale(e: Employee, now: Millis) {
    DaysInStatus(e, now) > STALE_AFTER_DAYS
  }

  /** The card's stale flag in milliseconds: from the instant 31 full days
      have passed. */
  lemma StaleInMillis(e: Employee, now: Millis)
    ensures IsStale(e, now) <==> now - e.statusUpdatedAt >= (STALE_AFTER_DAYS + 1) * MS_PER_DAY
  {
    var d := DaysInStatus(e, now);
    if d <= STALE_AFTER_DAYS {
      assert (d + 1) * MS_PER_DAY <= (STALE_AFTER_DAYS + 1) * MS_PER_DAY;
    }
  }

  /** For a timestamp not in the future the card counts days as the stale
      query of the backend does; the card's flag is therefore the backend's
      threshold of 31, not of 30. */
  lemma CardAgreesWithBackendDays(e: Employee, now: Millis)
    requires e.statusUpdatedAt <= now
    ensures DaysInStatus(e, now) == StatusHistoryModel.DaysInStatus(e, now)
    ensures IsStale(e, now) <==> StatusHistoryModel.DaysInStatus(e, now) >= STALE_AFTER_DAYS + 1
  {
    var a := DaysInStatus(e, now);
    var b := StatusHistoryModel.DaysInStatus(e, now);
    DaysUnique(now - e.statusUpdatedAt, a, b);
  }

  /** At most one whole number of days brackets an elapsed time. */
  lemma DaysUnique(elapsed: int, a: int, b: int)
    requires a * MS_PER_DAY <= elapsed < a * MS_PER_DAY + MS_PER_DAY
    requires b * MS_PER_DAY <= elapsed < b * MS_PER_DAY + MS_PER_DAY
    ensures a == b
  {
  }

  /** Exactly 30 days in a stage: the backend's stale query (threshold 30,
      inclusive) lists the employee, while the card does not flag it. */
  lemma ThirtyDaysStaleOnlyInBackend(e: Employee, now: Millis)
    requires now - e.statusUpdatedAt == STALE_AFTER_DAYS * MS_PER_DAY
    ensures !IsStale(e, now)
    ensures StatusHistoryModel.StaleIn(e.currentStatus, STALE_AFTER_DAYS, now)(e)
  {
    CardAgreesWithBackendDays(e, now);
    DaysUnique(now - e.statusUpdatedAt, DaysInStatus(e, now), STALE_AFTER_DAYS);
  }

  /** What follows the number in the label of any other day count. */
  const DAYS_AGO: string := " days ago"

  /** The label for a number of whole days since an update. */
  function SinceLabel(days: int): (text: string)
    ensures days == 0 <==> text == "Today"
    ensures days == 1 <==> text == "Yesterday"
    ensures days != 0 && days != 1 ==>
      && |text| > |DAYS_AGO|
      && text[|text| - |DAYS_AGO|..] == DAYS_AGO
      && text[..|text| - |DAYS_AGO|] == IntString(days)
  {
    if days == 0 then "Today"
    else if days == 1 then "Yesterday"
    else IntString(days) + DAYS_AGO
  }

  /** `getTimeSinceUpdate`: "Today" within the first day after the update,
      "Yesterday" within the second, and otherwise the whole number of days
      elapsed, rounded down (negative for an update ahead of the clock). */
  function TimeSinceUpdate(updatedAt: Millis, now: Millis): (text: string)
    ensures 0 <= now - updatedAt < MS_PER_DAY <==> text == "Today"
    ensures MS_PER_DAY <= now - updatedAt < 2 * MS_PER_DAY <==> text == "Yesterday"
    ensures (now - updatedAt < 0 || now - updatedAt >= 2 * MS_PER_DAY) ==>
      exists days ::
        && text == IntString(days) + DAYS_AGO
        && days * MS_PER_DAY <= now - updatedAt < days * MS_PER_DAY + MS_PER_DAY
  {
    var days := DaysBetween(updatedAt, now);
    var text := SinceLabel(days);
    assert days == 0 <==> 0 <= now - updatedAt < MS_PER_DAY;
    assert days == 1 <==> MS_PER_DAY <= now - updatedAt < 2 * MS_PER_DAY;
    assert days != 0 && days != 1 ==> text == IntString(days) + DAYS_AGO;
    text
  }

  /** Different day counts get different labels, so the label tells how many
      days have passed. */
  lemma SinceLabelInjective(a: int, b: int)
    requires SinceLabel(a) == SinceLabel(b)
    ensures a == b
  {
    if a != 0 && a != 1 && b != 0 && b != 1 {
      var sa := IntString(a);
      var sb := IntString(b);
      var suffix := DAYS_AGO;
      assert sa + suffix == sb + suffix;
      assert sa == sb by {
        assert |sa| == |sb|;
        assert sa == (sa + suffix)[..|sa|];
        assert sb == (sb + suffix)[..|sb|];
      }
      IntStringInjective(a, b);
    }
  }

  /** Different integers print differently. */
  lemma IntStringInjective(a: int, b: int)
    requires IntString(a) == IntString(b)
    ensures a == b
  {
    if a >= 0 && b >= 0 {
      NatStringInjective(a, b);
    } else if a < 0 && b < 0 {
      assert NatString(-a) == IntString(a)[1..];
      assert NatString(-b) == IntString(b)[1..];
      NatStringInjective(-a, -b);
    }
  }

  /** `isSelected`: the card's employee is in the selection. */
  predicate IsSelected(selected: seq<Id>, e: Employee) {
    e.id in selected
  }

  /** Toggling a card flips exactly that card's selection. */
  lemma ToggleFlipsSelected(selected: seq<Id>, e: Employee, other: Employee)
    requires other.id != e.id
    ensures IsSelected(ToggleEmployeeSelection(selected, e.id), e) <==> !IsSelected(selected, e)
    ensures IsSelected(ToggleEmployeeSelection(selected, e.id), other) <==> IsSelected(selected, other)
  {
  }
}
