/**
 * Date helpers (src/dates/index.ts). Dates are whole days numbered so that
 * day 0 is a Monday (2018-01-01); the moment library is reduced to this day
 * arithmetic and an ISO weekday. "Today" is a parameter rather than the clock.
 */
module Dates {
  import opened Wrappers
  import Time
  import Arrays

  /** Minutes in an hour times milliseconds in a minute. */
  const MsPerMinute: int := 60 * 1000

  /** `moment.isoWeekday()`: 1 for Monday through 7 for Sunday. */
  function IsoWeekday(d: int): (w: int)
    ensures 1 <= w <= 7
  {
    d % 7 + 1
  }

  /** Writing a day as whole weeks plus a remainder gives its weekday. */
  lemma Phase(d: int, q: int, r: int)
    requires 0 <= r < 7 && d == 7 * q + r
    ensures IsoWeekday(d) == r + 1
  {
  }

  /** Seven days on, the weekday is the same. */
  lemma WeekdayPeriodic(d: int, w: int)
    ensures IsoWeekday(d + 7 * w) == IsoWeekday(d)
  {
    Phase(d + 7 * w, d / 7 + w, d % 7);
  }

  /** `startOf('isoWeek')`: the Monday on or before `d`. */
  function StartOfIsoWeek(d: int): (s: int)
    ensures IsoWeekday(s) == 1 && d - 6 <= s <= d
  {
    Phase(d - d % 7, d / 7, 0);
    d - (IsoWeekday(d) - 1)
  }

  /** `endOf('isoWeek')`, as a day: the Sunday on or after `d`. */
  function EndOfIsoWeek(d: int): (e: int)
    ensures IsoWeekday(e) == 7 && d <= e <= d + 6
  {
    Phase(d - d % 7 + 6, d / 7, 6);
    StartOfIsoWeek(d) + 6
  }

  predicate IsWeekend(d: int) {
    IsoWeekday(d) >= 6
  }

  // ---------------------------------------------------------------------
  // minsToMs
  // ---------------------------------------------------------------------

  /** `minsToMs(mins)`: `mins * 60 * 1000`. */
  function MinsToMs(mins: int): (ms: int)
    ensures ms == mins * MsPerMinute
  {
    mins * 60 * 1000
  }

  /** The values of the tests, a negative count among them. */
  lemma MinsToMsExamples()
    ensures MinsToMs(0) == 0 && MinsToMs(1) == 60000
    ensures MinsToMs(123) == 7380000 && MinsToMs(-123) == -7380000
  {
  }

  // ---------------------------------------------------------------------
  // getDuration, validateShiftDuration
  // ---------------------------------------------------------------------

  /**
   * `getDuration(start, end)`: `new Time(end).add(-new Time(start))`. The end
   * is constructed first, so its error wins; the result is the difference
   * reduced into the day, which wraps across midnight.
   */
  function GetDuration(start: Time.TimeLike, end: Time.TimeLike): (r: Result<Time.Time, Time.TimeError>)
    ensures Time.Construct(Some(end)).Err? ==> r == Err(Time.Construct(Some(end)).error)
    ensures Time.Construct(Some(end)).Ok? && Time.Construct(Some(start)).Err? ==> r == Err(Time.Construct(Some(start)).error)
    ensures Time.Construct(Some(end)).Ok? && Time.Construct(Some(start)).Ok? ==>
      r.Ok? && Time.InDay(r.value)
      && r.value.value == (Time.Construct(Some(end)).value.value - Time.Construct(Some(start)).value.value) % Time.MinutesPerDay
  {
    match Time.Construct(Some(end))
    case Err(e) => Err(e)
    case Ok(endTime) =>
      match Time.Construct(Some(start))
      case Err(e) => Err(e)
      case Ok(startTime) => Ok(Time.Add(endTime, -Time.ValueOf(startTime)))
  }

  /** For two times of the day, the duration is end minus start, plus a day when the end is earlier; adding it to the start gives the end. */
  lemma DurationOfTimesOfDay(s: int, e: int)
    requires 0 <= s < Time.MinutesPerDay && 0 <= e < Time.MinutesPerDay
    ensures GetDuration(Time.FromNumber(s), Time.FromNumber(e)).Ok?
    ensures var d := GetDuration(Time.FromNumber(s), Time.FromNumber(e)).value;
      && d.value == (if e >= s then e - s else e - s + Time.MinutesPerDay)
      && Time.Add(Time.Time(s), d.value) == Time.Time(e)
  {
  }

  /** A shift from 22:00 to 06:00 lasts eight hours. */
  lemma OvernightShift()
    ensures GetDuration(Time.FromString("22:00"), Time.FromString("06:00")) == Ok(Time.Time(480))
  {
    assert Time.IsHHmm("22:00") && Time.IsHHmm("06:00");
  }

  /**
   * `validateShiftDuration(start, end, min)`: true for a missing or zero
   * minimum, without looking at the times; otherwise the duration is computed
   * first (and may throw), then `new Time(min)` (a RangeError outside the day),
   * and the duration is compared with it.
   */
  function ValidateShiftDuration(start: Time.TimeLike, end: Time.TimeLike, minDuration: Option<int>): (r: Result<bool, Time.TimeError>)
    ensures minDuration.None? || minDuration.value == 0 ==> r == Ok(true)
    ensures minDuration.Some? && minDuration.value != 0 ==>
      match GetDuration(start, end)
      case Err(e) => r == Err(e)
      case Ok(d) =>
        if 0 <= minDuration.value < Time.MinutesPerDay then r == Ok(d.value >= minDuration.value)
        else r == Err(Time.OutOfRange)
  {
    if minDuration.None? || minDuration.value == 0 then Ok(true)
    else
      match GetDuration(start, end)
      case Err(e) => Err(e)
      case Ok(d) =>
        match Time.OfNumber(minDuration.value)
        case Err(e) => Err(e)
        case Ok(minTime) => Ok(Time.ValueOf(d) >= Time.ValueOf(minTime))
  }

  /** With valid times of the day and a minimum inside the day, the shift is valid exactly when it lasts at least the minimum. */
  lemma ValidShiftIffLongEnough(s: int, e: int, min: int)
    requires 0 <= s < Time.MinutesPerDay && 0 <= e < Time.MinutesPerDay && 0 < min < Time.MinutesPerDay
    ensures ValidateShiftDuration(Time.FromNumber(s), Time.FromNumber(e), Some(min))
         == Ok((if e >= s then e - s else e - s + Time.MinutesPerDay) >= min)
  {
    DurationOfTimesOfDay(s, e);
  }

  // ---------------------------------------------------------------------
  // getNextWorkingDay
  // ---------------------------------------------------------------------

  /**
   * `getNextWorkingDay()` with today passed in: three days on a Friday, two on
   * a Saturday, one otherwise. The result is the first weekday after today.
   */
  function GetNextWorkingDay(today: int): (r: int)
    ensures r > today && !IsWeekend(r)
    ensures forall d :: today < d < r ==> IsWeekend(d)
  {
    var q, ph := today / 7, today % 7;
    Phase(today + 1, if ph == 6 then q + 1 else q, (ph + 1) % 7);
    Phase(today + 2, if ph >= 5 then q + 1 else q, (ph + 2) % 7);
    Phase(today + 3, if ph >= 4 then q + 1 else q, (ph + 3) % 7);
    match IsoWeekday(today)
    case 5 => today + 3
    case 6 => today + 2
    case _ => today + 1
  }

  /** Three days on from a Friday, two from a Saturday, one from any other day. */
  lemma NextWorkingDayOffsets(today: int)
    ensures IsoWeekday(today) == 5 ==> GetNextWorkingDay(today) == today + 3
    ensures IsoWeekday(today) == 6 ==> GetNextWorkingDay(today) == today + 2
    ensures IsoWeekday(today) != 5 && IsoWeekday(today) != 6 ==> GetNextWorkingDay(today) == today + 1
  {
  }

  // ---------------------------------------------------------------------
  // getDatesOfNextWeeks
  // ---------------------------------------------------------------------

  function DaysPerWeek(includeWeekends: bool): nat {
    if includeWeekends then 7 else 5
  }

  /** `weekIndices.map(weekIndex => moment(start).add(weekIndex, 'weeks'))`. */
  function WeekStarts(start: int, weekIndices: seq<int>): seq<int>
  {
    seq(|weekIndices|, i requires 0 <= i < |weekIndices| => start + 7 * weekIndices[i])
  }

  /** The days of one week: `createRange(k).map(dayIndex => moment(weekStart).add(dayIndex, 'days'))`. */
  function WeekDays(weekStart: int, k: nat): seq<int>
  {
    var dayIndices := Arrays.CreateRange(k, 0).value;
    seq(|dayIndices|, i requires 0 <= i < |dayIndices| => weekStart + dayIndices[i])
  }

  /** `weekStarts.map(weekStart => weekDays(weekStart))`. */
  function WeeksOf(weekStarts: seq<int>, k: nat): seq<seq<int>>
  {
    seq(|weekStarts|, i requires 0 <= i < |weekStarts| => WeekDays(weekStarts[i], k))
  }

  /**
   * `getDatesOfNextWeeks(start, { n = 2, includeWeekends = false })`: for each
   * of the `n` weeks from `start`, its first five or seven days, all in one
   * array. A negative `n` makes `createRange(n)` throw.
   */
  function GetDatesOfNextWeeks(start: int, n: int := 2, includeWeekends: bool := false): (r: Result<seq<int>, Arrays.ArrayError>)
    ensures r.Err? <==> n < 0
    ensures r.Ok? ==> r.value == Arrays.Flatten(Weeks(start, n, DaysPerWeek(includeWeekends)))
  {
    match Arrays.CreateRange(n, 0)
    case Err(e) => Err(e)
    case Ok(weekIndices) =>
      var k := DaysPerWeek(includeWeekends);
      assert WeeksOf(WeekStarts(start, weekIndices), k) == Weeks(start, n, k);
      Ok(Arrays.Flatten(WeeksOf(WeekStarts(start, weekIndices), k)))
  }

  /** The weeks `getDatesOfNextWeeks` flattens: week `w` holds the first `k` days from `start + 7w`. */
  function Weeks(start: int, n: nat, k: nat): seq<seq<int>>
  {
    seq(n, w requires 0 <= w < n => WeekDays(start + 7 * w, k))
  }

  lemma WeekDaysAt(weekStart: int, k: nat)
    ensures |WeekDays(weekStart, k)| == k
    ensures forall j :: 0 <= j < k ==> WeekDays(weekStart, k)[j] == weekStart + j
  {
  }

  /** Day `j` of week `w` counted from `start`. */
  function DateOf(start: int, w: int, j: int): int {
    start + 7 * w + j
  }

  /** Entry `w * k + j` of the result is day `j` of week `w`; there are `n * k` entries, `k` being five or seven. */
  lemma DatesOfNextWeeksAt(start: int, n: nat, includeWeekends: bool, k: nat)
    requires k == DaysPerWeek(includeWeekends)
    ensures GetDatesOfNextWeeks(start, n, includeWeekends).Ok?
    ensures |GetDatesOfNextWeeks(start, n, includeWeekends).value| == n * k
    ensures forall w, j :: 0 <= w < n && 0 <= j < k ==>
      w * k + j < n * k && GetDatesOfNextWeeks(start, n, includeWeekends).value[w * k + j] == DateOf(start, w, j)
  {
    var r := GetDatesOfNextWeeks(start, n, includeWeekends).value;
    FlatWeeksAt(start, n, k);
    assert r == Arrays.Flatten(Weeks(start, n, k));
    forall w, j | 0 <= w < n && 0 <= j < k ensures w * k + j < n * k && r[w * k + j] == DateOf(start, w, j) {
      assert Arrays.Slot(w, k, j) == w * k + j;
    }
  }

  /** The flattened weeks, slot by slot: day `j` of week `w` sits at `Slot(w, k, j)`. */
  lemma FlatWeeksAt(start: int, n: nat, k: nat)
    ensures |Arrays.Flatten(Weeks(start, n, k))| == n * k
    ensures forall w: nat, j: nat :: w < n && j < k ==>
      Arrays.Slot(w, k, j) < n * k && Arrays.Flatten(Weeks(start, n, k))[Arrays.Slot(w, k, j)] == DateOf(start, w, j)
  {
    WeeksAt(start, n, k);
    Arrays.FlattenUniform(Weeks(start, n, k), k);
  }

  lemma WeeksAt(start: int, n: nat, k: nat)
    ensures forall w :: 0 <= w < n ==> |Weeks(start, n, k)[w]| == k
    ensures forall w: nat, j: nat :: w < n && j < k ==> Weeks(start, n, k)[w][j] == DateOf(start, w, j)
  {
    forall w | 0 <= w < n ensures |Weeks(start, n, k)[w]| == k {
      WeekDaysAt(start + 7 * w, k);
    }
    forall w: nat, j: nat | w < n && j < k ensures Weeks(start, n, k)[w][j] == DateOf(start, w, j) {
      WeekDaysAt(start + 7 * w, k);
    }
  }

  /** Strictly ascending, with every element in `lo .. hi - 1`. */
  predicate AscendingWithin(r: seq<int>, lo: int, hi: int) {
    && (forall i :: 0 <= i < |r| ==> lo <= r[i] < hi)
    && (forall i, j :: 0 <= i < j < |r| ==> r[i] < r[j])
  }

  /** The dates are strictly ascending and lie in the `n` weeks from `start`. */
  lemma {:induction false} DatesAscending(start: int, n: nat, k: nat)
    requires k <= 7
    ensures AscendingWithin(Arrays.Flatten(Weeks(start, n, k)), start, start + 7 * n)
  {
    if n > 0 {
      var ws := Weeks(start, n, k);
      assert ws[..n - 1] == Weeks(start, n - 1, k);
      DatesAscending(start, n - 1, k);
      var p := Arrays.Flatten(Weeks(start, n - 1, k));
      var last := WeekDays(start + 7 * (n - 1), k);
      WeekDaysAt(start + 7 * (n - 1), k);
      var r := p + last;
      assert Arrays.Flatten(ws) == r;
      forall i | 0 <= i < |r| ensures start <= r[i] < start + 7 * n {
        if i >= |p| {
          assert r[i] == last[i - |p|];
          assert i - |p| < k;
          assert last[i - |p|] == start + 7 * (n - 1) + (i - |p|);
        } else {
          assert r[i] == p[i];
        }
      }
      forall i, j | 0 <= i < j < |r| ensures r[i] < r[j] {
        if j >= |p| && i < |p| {
          assert r[i] == p[i] && r[j] == last[j - |p|];
        } else if i >= |p| {
          assert r[i] == last[i - |p|] && r[j] == last[j - |p|];
        } else {
          assert r[i] == p[i] && r[j] == p[j];
        }
      }
    }
  }

  /** The result is ascending. */
  lemma DatesOfNextWeeksAscending(start: int, n: nat, includeWeekends: bool)
    ensures GetDatesOfNextWeeks(start, n, includeWeekends).Ok?
    ensures var r := GetDatesOfNextWeeks(start, n, includeWeekends).value;
      forall i, j :: 0 <= i < j < |r| ==> r[i] < r[j]
  {
    DatesAscending(start, n, DaysPerWeek(includeWeekends));
    assert AscendingWithin(GetDatesOfNextWeeks(start, n, includeWeekends).value, start, start + 7 * n);
  }

  /** Started on a Monday, the work-day variant yields only Mondays to Fridays, day `j` of each week on weekday `j + 1`. */
  lemma DatesOfNextWeeksAreWorkdays(start: int, n: nat)
    requires IsoWeekday(start) == 1
    ensures GetDatesOfNextWeeks(start, n).Ok?
    ensures var r := GetDatesOfNextWeeks(start, n).value;
      forall w, j :: 0 <= w < n && 0 <= j < 5 ==> w * 5 + j < |r| && r[w * 5 + j] == DateOf(start, w, j) && IsoWeekday(DateOf(start, w, j)) == j + 1
  {
    DatesOfNextWeeksAt(start, n, false, 5);
    forall w, j | 0 <= w < n && 0 <= j < 5 ensures IsoWeekday(DateOf(start, w, j)) == j + 1 {
      Phase(start + 7 * w + j, start / 7 + w, j);
    }
  }

  // ---------------------------------------------------------------------
  // getCalendarMonthBoundaries
  // ---------------------------------------------------------------------

  /** The Sunday on or before `d`. */
  function SundayOnOrBefore(d: int): (s: int)
    ensures IsoWeekday(s) == 7 && d - 6 <= s <= d
  {
    var q, ph := d / 7, d % 7;
    Phase(d - (ph + 1) % 7, if ph == 6 then q else q - 1, 6);
    d - IsoWeekday(d) % 7
  }

  /** The Saturday on or after `d`. */
  function SaturdayOnOrAfter(d: int): (e: int)
    ensures IsoWeekday(e) == 6 && d <= e <= d + 6
  {
    var q, ph := d / 7, d % 7;
    Phase(d - (ph + 1) % 7 + 6, if ph == 6 then q + 1 else q, 5);
    SundayOnOrBefore(d) + 6
  }

  /** Sunday-first start: one day before the ISO week start, moved a week on when that is exactly a week before `first`. */
  lemma SundayStartCorrection(first: int)
    ensures var s := StartOfIsoWeek(first) - 1;
      (if s + 7 == first then s + 7 else s) == SundayOnOrBefore(first)
  {
  }

  /** Sunday-first end: one day before the ISO week end, moved a week on when that falls before `last`. */
  lemma SundayEndCorrection(last: int)
    ensures var e := EndOfIsoWeek(last) - 1;
      (if e < last then e + 7 else e) == SaturdayOnOrAfter(last)
  {
  }

  /** A span from a week's first day to a week's last day is a whole number of weeks. */
  lemma WholeWeeks(s: int, e: int)
    requires s <= e && (e + 1) % 7 == s % 7
    ensures (e - s + 1) % 7 == 0 && e - s + 1 >= 7
  {
    var q := (e + 1) / 7 - s / 7;
    assert e - s + 1 == 7 * q;
  }

  /**
   * `getCalendarMonthBoundaries(month, weekStartsOnSunday)` for the month from
   * day `first` to day `last`: the first day of the week holding `first` and the
   * last day of the week holding `last`. With Sunday-first weeks both ISO
   * boundaries move back a day, then `start` moves a week forward when that
   * lands a week before `first`, and `end` a week forward when it falls before
   * `last`.
   */
  method CalendarMonthBoundaries(first: int, last: int, weekStartsOnSunday: bool := false) returns (start: int, end: int)
    requires first <= last
    ensures !weekStartsOnSunday ==> start == StartOfIsoWeek(first) && end == EndOfIsoWeek(last)
    ensures weekStartsOnSunday ==> start == SundayOnOrBefore(first) && end == SaturdayOnOrAfter(last)
    ensures start <= first && last <= end && first - start < 7 && end - last < 7
    ensures (end - start + 1) % 7 == 0 && end - start + 1 >= 7
  {
    start := StartOfIsoWeek(first);
    end := EndOfIsoWeek(last);
    if weekStartsOnSunday {
      start := start - 1;
      end := end - 1;
      SundayStartCorrection(first);
      if start + 7 == first {
        start := start + 7;
      }
      SundayEndCorrection(last);
      if end < last {
        end := end + 7;
      }
    }
    WholeWeeks(start, end);
  }

  /** December 2019 (days 699 to 729): 2019-11-25 to 2020-01-05 with Monday-first weeks, 2019-12-01 to 2020-01-04 with Sunday-first weeks. */
  method December2019() returns (mondayStart: int, mondayEnd: int, sundayStart: int, sundayEnd: int)
    ensures mondayStart == 693 && mondayEnd == 734
    ensures sundayStart == 699 && sundayEnd == 733
  {
    mondayStart, mondayEnd := CalendarMonthBoundaries(699, 729);
    sundayStart, sundayEnd := CalendarMonthBoundaries(699, 729, true);
  }
}
