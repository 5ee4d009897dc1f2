/**
 * The older copy of the date helpers (src/helpers/dates.ts). Apart from
 * `getDatesOfNextWeeks`, which always yields work days only, its code is the
 * same as src/dates/index.ts, so those members use the newer definitions.
 */
module LegacyDates {
  import opened Wrappers
  import Time
  import Arrays
  import Dates

  /** `minsToMs(mins)`: `mins * 60 * 1000`. */
  function MinsToMs(mins: int): (ms: int)
    ensures ms == mins * Dates.MsPerMinute
  {
    Dates.MinsToMs(mins)
  }

  /** `getDuration(start, end)`: the end minus the start, reduced into the day; the end's error comes first. */
  function GetDuration(start: Time.TimeLike, end: Time.TimeLike): (r: Result<Time.Time, Time.TimeError>)
    ensures Time.Construct(Some(end)).Err? ==> r == Err(Time.Construct(Some(end)).error)
    ensures Time.Construct(Some(end)).Ok? && Time.Construct(Some(start)).Err? ==> r == Err(Time.Construct(Some(start)).error)
    ensures Time.Construct(Some(end)).Ok? && Time.Construct(Some(start)).Ok? ==>
      r.Ok? && Time.InDay(r.value)
      && r.value.value == (Time.Construct(Some(end)).value.value - Time.Construct(Some(start)).value.value) % Time.MinutesPerDay
  {
    Dates.GetDuration(start, end)
  }

  /** `validateShiftDuration(start, end, min)`: true for a falsy minimum, otherwise whether the duration reaches it. */
  function ValidateShiftDuration(start: Time.TimeLike, end: Time.TimeLike, minDuration: Option<int>): (r: Result<bool, Time.TimeError>)
    ensures minDuration.None? || minDuration.value == 0 ==> r == Ok(true)
    ensures minDuration.Some? && 0 < minDuration.value < Time.MinutesPerDay && GetDuration(start, end).Ok? ==>
      r == Ok(GetDuration(start, end).value.value >= minDuration.value)
    ensures minDuration.Some? && minDuration.value != 0 && GetDuration(start, end).Err? ==> r == Err(GetDuration(start, end).error)
    ensures minDuration.Some? && !(0 <= minDuration.value < Time.MinutesPerDay) && GetDuration(start, end).Ok? ==> r == Err(Time.OutOfRange)
  {
    Dates.ValidateShiftDuration(start, end, minDuration)
  }

  /** `getNextWorkingDay()` with today passed in: the first weekday after today. */
  function GetNextWorkingDay(today: int): (r: int)
    ensures r > today && !Dates.IsWeekend(r)
    ensures forall d :: today < d < r ==> Dates.IsWeekend(d)
  {
    Dates.GetNextWorkingDay(today)
  }

  /**
   * `getDatesOfNextWeeks(start, n = 2)`: the five work days of each of the `n`
   * weeks from `start`; the same as the newer helper without weekends.
   */
  function GetDatesOfNextWeeks(start: int, n: int := 2): (r: Result<seq<int>, Arrays.ArrayError>)
    ensures r.Err? <==> n < 0
    ensures r.Ok? ==> r == Dates.GetDatesOfNextWeeks(start, n, false)
  {
    match Arrays.CreateRange(n, 0)
    case Err(e) => Err(e)
    case Ok(weekIndices) =>
      assert Dates.WeeksOf(Dates.WeekStarts(start, weekIndices), 5) == Dates.Weeks(start, n, 5);
      Ok(Arrays.Flatten(Dates.WeeksOf(Dates.WeekStarts(start, weekIndices), 5)))
  }

  /** `getCalendarMonthBoundaries(month, weekStartsOnSunday)`: whole weeks around the month. */
  method CalendarMonthBoundaries(first: int, last: int, weekStartsOnSunday: bool := false) returns (start: int, end: int)
    requires first <= last
    ensures !weekStartsOnSunday ==> start == Dates.StartOfIsoWeek(first) && end == Dates.EndOfIsoWeek(last)
    ensures weekStartsOnSunday ==> start == Dates.SundayOnOrBefore(first) && end == Dates.SaturdayOnOrAfter(last)
    ensures start <= first && last <= end && first - start < 7 && end - last < 7
    ensures (end - start + 1) % 7 == 0 && end - start + 1 >= 7
  {
    start, end := Dates.CalendarMonthBoundaries(first, last, weekStartsOnSunday);
  }
}
