/** The application clock. Instants are whole seconds since 1970-01-01 00:00:00 in
    the application's local time zone, so a calendar day is a block of 86400
    seconds and "today" is the day of the request's `now`. */
module Clock {

  type Time = int

  const SecondsPerDay: int := 86400
  const SecondsPerMinute: int := 60

  /** Calendar day number of an instant (day 0 is 1970-01-01); the date part that
      `whereDate('check_in', today())` compares. */
  function DayOf(t: Time): (d: int)
    ensures d * SecondsPerDay <= t < (d + 1) * SecondsPerDay
  {
    t / SecondsPerDay
  }

  /** A calendar month, the pair that `whereMonth` and `whereYear` compare together. */
  datatype YearMonth = YearMonth(year: int, month: int)

  /** Proleptic Gregorian year and month of a day number (civil-from-days). */
  function CivilMonth(days: int): (ym: YearMonth)
    ensures 1 <= ym.month <= 12
  {
    var z := days + 719468;
    var era := z / 146097;
    var doe := z - era * 146097;
    var yoe := (doe - doe / 1460 + doe / 36524 - doe / 146096) / 365;
    var doy := doe - (365 * yoe + yoe / 4 - yoe / 100);
    var mp := (5 * doy + 2) / 153;
    var m := if mp < 10 then mp + 3 else mp - 9;
    var y := yoe + era * 400;
    YearMonth(if m <= 2 then y + 1 else y, m)
  }

  /** Calendar month of an instant. */
  function MonthOf(t: Time): YearMonth {
    CivilMonth(DayOf(t))
  }

  /** Two instants on the same calendar day lie in the same calendar month, so the
      `today` scope never selects a record the `thisMonth` scope would drop. */
  lemma SameDaySameMonth(t1: Time, t2: Time)
    requires DayOf(t1) == DayOf(t2)
    ensures MonthOf(t1) == MonthOf(t2)
  {
  }

  /** Carbon's `diffInMinutes` cast with `(int)`: the signed number of minutes from
      `from` to `to`, truncated toward zero. */
  function WholeMinutes(from: Time, to: Time): (m: int)
    ensures from <= to ==> 0 <= m && m * SecondsPerMinute <= to - from < (m + 1) * SecondsPerMinute
    ensures to < from ==> m <= 0 && (m - 1) * SecondsPerMinute < to - from <= m * SecondsPerMinute
  {
    if from <= to then (to - from) / SecondsPerMinute
    else -((from - to) / SecondsPerMinute)
  }

  /** A duration split for display: `floor(m / 60)` hours, and `m % 60` minutes with
      the remainder taking the sign of `m`, as PHP's and JavaScript's `%` do. */
  datatype HoursMinutes = HoursMinutes(hours: int, minutes: int)

  function SplitMinutes(m: int): (r: HoursMinutes)
    ensures m >= 0 ==> r.hours * 60 + r.minutes == m && 0 <= r.minutes < 60 && r.hours >= 0
    ensures m < 0 ==> -60 < r.minutes <= 0 && r.hours * 60 <= m < (r.hours + 1) * 60
    ensures m < 0 ==> (m - r.minutes) % 60 == 0
  {
    HoursMinutes(m / 60, if m >= 0 then m % 60 else -((-m) % 60))
  }

  /** For a negative duration that is not a whole number of hours, the two parts do
      not add back up: -5 minutes splits into -1 hour and -5 minutes. */
  lemma SplitNegativeDoesNotReconstruct()
    ensures SplitMinutes(-5) == HoursMinutes(-1, -5)
    ensures SplitMinutes(-5).hours * 60 + SplitMinutes(-5).minutes != -5
  {
  }
}
