/** The read-side statistics: folds over attendance records that count them by
    status, sum their `work_duration` minutes and turn minutes into hours. Hours
    are exact rationals here (the two-decimal rounding for display is left out). */
module Statistics {
  import opened Base
  import opened Clock
  import opened Attendances

  /** The minutes a record contributes to `sum('work_duration')`: SQL `SUM` and
      collection `sum` both skip or zero a null. */
  function DurationOrZero(a: Attendance): int {
    a.workDuration.GetOr(0)
  }

  /** Sum of the non-null durations. */
  function TotalMinutes(atts: seq<Attendance>): int {
    SumOf(atts, DurationOrZero)
  }

  predicate HasDuration(a: Attendance) {
    a.workDuration.Some?
  }

  predicate HasPositiveDuration(a: Attendance) {
    a.workDuration.Some? && a.workDuration.value > 0
  }

  /** Minutes to hours, `/ 60`. */
  function Hours(minutes: int): (h: real)
    ensures h * 60.0 == minutes as real
  {
    minutes as real / 60.0
  }

  /** The guarded average: hours per day when there is at least one day, else 0. */
  function Average(hours: real, days: nat): (r: real)
    ensures days == 0 ==> r == 0.0
    ensures days > 0 ==> r == hours / days as real && r * days as real == hours
  {
    if days > 0 then hours / days as real else 0.0
  }

  function CountCompleted(atts: seq<Attendance>): nat {
    |CompletedScope(atts)|
  }

  function CountActive(atts: seq<Attendance>): nat {
    |ActiveScope(atts)|
  }

  /** Every record is counted exactly once, as completed or as active. */
  lemma CountsPartition(atts: seq<Attendance>)
    ensures CountCompleted(atts) + CountActive(atts) == |atts|
  {
    ActiveCompletedPartition(atts);
  }

  /** Statistics block of `AttendanceController::show` (attendance history). */
  datatype HistoryStats = HistoryStats(totalHours: real, totalDays: nat, averageHours: real)

  function HistoryStatistics(page: seq<Attendance>): (r: HistoryStats)
    ensures r.totalDays == CountCompleted(page)
    ensures r.totalHours * 60.0 == TotalMinutes(Filter(page, HasPositiveDuration)) as real
    ensures r.totalDays == 0 ==> r.averageHours == 0.0
    ensures r.totalDays > 0 ==> r.averageHours == r.totalHours / r.totalDays as real
  {
    var hours := Hours(TotalMinutes(Filter(page, HasPositiveDuration)));
    var days := CountCompleted(page);
    HistoryStats(hours, days, Average(hours, days))
  }

  /** Statistics block of `ReportController::index`. The query builder is mutated
      in place: after the `completed` count its `where` stays on the builder, so
      the hours are summed over completed records only. */
  datatype ReportStats = ReportStats(totalAttendances: nat, completedAttendances: nat, totalHours: real, averageHours: real)

  function ReportIndexStatistics(selected: seq<Attendance>): (r: ReportStats)
    ensures r.totalAttendances == |selected|
    ensures r.completedAttendances == CountCompleted(selected) <= r.totalAttendances
    ensures r.totalHours * 60.0 == TotalMinutes(Filter(CompletedScope(selected), HasDuration)) as real
    ensures r.completedAttendances == 0 ==> r.averageHours == 0.0
    ensures r.completedAttendances > 0 ==> r.averageHours == r.totalHours / r.completedAttendances as real
  {
    var completed := CompletedScope(selected);
    var hours := Hours(TotalMinutes(Filter(completed, HasDuration)));
    var average := Average(hours, |completed|);
    ReportStats(|selected|, |completed|, hours, average)
  }

  /** One row of `ReportController::create` (monthly summary per employee). */
  datatype MonthlyRow = MonthlyRow(totalDays: nat, totalHours: real, averageHours: real, incompleteDays: nat)

  function MonthlyStatistics(month: seq<Attendance>): (r: MonthlyRow)
    ensures r.totalDays == CountCompleted(month)
    ensures r.incompleteDays == CountActive(month)
    ensures r.totalDays + r.incompleteDays == |month|
    ensures r.totalHours * 60.0 == TotalMinutes(Filter(month, HasPositiveDuration)) as real
    ensures r.totalDays == 0 ==> r.averageHours == 0.0
    ensures r.totalDays > 0 ==> r.averageHours == r.totalHours / r.totalDays as real
  {
    CountsPartition(month);
    var minutes := TotalMinutes(Filter(month, HasPositiveDuration));
    var hours := Hours(minutes);
    var days := CountCompleted(month);
    var average := Average(hours, days);
    MonthlyRow(days, hours, average, CountActive(month))
  }

  /** Statistics of `ReportController::edit` (one employee over a date range): two
      separate queries, so the hours cover every non-null duration in range. */
  datatype EmployeeReportStats = EmployeeReportStats(totalDays: nat, totalHours: real, averageHours: real)

  function EmployeeReportStatistics(inRange: seq<Attendance>): (r: EmployeeReportStats)
    ensures r.totalDays == CountCompleted(inRange)
    ensures r.totalHours * 60.0 == TotalMinutes(Filter(inRange, HasDuration)) as real
    ensures r.totalDays == 0 ==> r.averageHours == 0.0
    ensures r.totalDays > 0 ==> r.averageHours == r.totalHours / r.totalDays as real
  {
    var hours := Hours(TotalMinutes(Filter(inRange, HasDuration)));
    var days := CountCompleted(inRange);
    EmployeeReportStats(days, hours, Average(hours, days))
  }

  /** Statistics of `EmployeeController::show`: this month's records grouped by
      status; hours come from the completed group. */
  datatype EmployeeMonthStats = EmployeeMonthStats(completedDays: nat, totalHours: real, averageHours: real, activeSessions: nat)

  function EmployeeMonthStatistics(month: seq<Attendance>): (r: EmployeeMonthStats)
    ensures r.completedDays == CountCompleted(month)
    ensures r.activeSessions == CountActive(month)
    ensures r.completedDays + r.activeSessions == |month|
    ensures r.totalHours * 60.0 == TotalMinutes(CompletedScope(month)) as real
    ensures r.completedDays == 0 ==> r.averageHours == 0.0
    ensures r.completedDays > 0 ==> r.averageHours == r.totalHours / r.completedDays as real
  {
    CountsPartition(month);
    var completed := CompletedScope(month);
    var hours := Hours(TotalMinutes(completed));
    EmployeeMonthStats(|completed|, hours, Average(hours, |completed|), CountActive(month))
  }

  /** No records, no statistics: every block reports zeros and no division by zero
      happens. */
  lemma EmptyInputAllZero()
    ensures HistoryStatistics([]) == HistoryStats(0.0, 0, 0.0)
    ensures ReportIndexStatistics([]) == ReportStats(0, 0, 0.0, 0.0)
    ensures MonthlyStatistics([]) == MonthlyRow(0, 0.0, 0.0, 0)
    ensures EmployeeReportStatistics([]) == EmployeeReportStats(0, 0.0, 0.0)
    ensures EmployeeMonthStatistics([]) == EmployeeMonthStats(0, 0.0, 0.0, 0)
  {
    assert CompletedScope([]) == [];
    assert ActiveScope([]) == [];
  }

  /** Records produced by check-in and check-out: fields agree with the status and
      no check-out precedes its check-in. */
  ghost predicate Consistent(atts: seq<Attendance>) {
    forall i :: 0 <= i < |atts| ==> WellFormed(atts[i]) && Chronological(atts[i])
  }

  /** On consistent records the five ways the controllers sum hours agree: only
      completed records carry a duration, and none is negative, so "completed
      only", "non-null", "greater than zero" and "all" select the same minutes. */
  lemma {:induction false} HourSumsAgree(atts: seq<Attendance>)
    requires Consistent(atts)
    ensures TotalMinutes(Filter(atts, HasPositiveDuration)) == TotalMinutes(atts)
    ensures TotalMinutes(Filter(atts, HasDuration)) == TotalMinutes(atts)
    ensures TotalMinutes(CompletedScope(atts)) == TotalMinutes(atts)
    ensures TotalMinutes(Filter(CompletedScope(atts), HasDuration)) == TotalMinutes(atts)
    ensures TotalMinutes(atts) >= 0
  {
    forall i | 0 <= i < |atts|
      ensures !HasPositiveDuration(atts[i]) ==> DurationOrZero(atts[i]) == 0
      ensures !HasDuration(atts[i]) ==> DurationOrZero(atts[i]) == 0
      ensures !IsCompleted(atts[i]) ==> DurationOrZero(atts[i]) == 0
      ensures DurationOrZero(atts[i]) >= 0
    {
      DurationIffCompleted(atts[i]);
    }
    SumFilterZeros(atts, HasPositiveDuration, DurationOrZero);
    SumFilterZeros(atts, HasDuration, DurationOrZero);
    SumFilterZeros(atts, IsCompleted, DurationOrZero);
    SumNonNegative(atts, DurationOrZero);
    var completed := CompletedScope(atts);
    forall i | 0 <= i < |completed|
      ensures !HasDuration(completed[i]) ==> DurationOrZero(completed[i]) == 0
    {
    }
    SumFilterZeros(completed, HasDuration, DurationOrZero);
  }

  /** Consequently, on consistent records the history page, the report index, the
      monthly row, the employee report and the employee page report the same hours
      and the same completed-day count. */
  lemma StatisticsAgree(atts: seq<Attendance>)
    requires Consistent(atts)
    ensures HistoryStatistics(atts).totalHours == ReportIndexStatistics(atts).totalHours
    ensures ReportIndexStatistics(atts).totalHours == MonthlyStatistics(atts).totalHours
    ensures MonthlyStatistics(atts).totalHours == EmployeeReportStatistics(atts).totalHours
    ensures EmployeeReportStatistics(atts).totalHours == EmployeeMonthStatistics(atts).totalHours
    ensures EmployeeMonthStatistics(atts).totalHours * 60.0 == TotalMinutes(atts) as real >= 0.0
    ensures HistoryStatistics(atts).totalDays == ReportIndexStatistics(atts).completedAttendances
            == MonthlyStatistics(atts).totalDays == EmployeeReportStatistics(atts).totalDays
            == EmployeeMonthStatistics(atts).completedDays
  {
    HourSumsAgree(atts);
  }

  /** On records that break the status/duration agreement (an active row carrying a
      duration, which nothing in the controllers writes) the report index and the
      employee report disagree: the mutated builder drops the active row's
      minutes. */
  lemma ReportIndexCountsCompletedOnly(a: Attendance)
    requires a.status == Active && a.workDuration == Some(60)
    ensures ReportIndexStatistics([a]).totalHours == 0.0
    ensures EmployeeReportStatistics([a]).totalHours == 1.0
  {
    assert CompletedScope([a]) == [];
    assert Filter([a], HasDuration) == [a];
  }

  /** Statistics do not depend on the order records are listed in (the reports show
      them newest first). */
  lemma StatisticsIgnoreOrder(a: seq<Attendance>, b: seq<Attendance>)
    requires multiset(a) == multiset(b)
    ensures HistoryStatistics(a) == HistoryStatistics(b)
    ensures ReportIndexStatistics(a) == ReportIndexStatistics(b)
    ensures MonthlyStatistics(a) == MonthlyStatistics(b)
    ensures EmployeeReportStatistics(a) == EmployeeReportStatistics(b)
    ensures EmployeeMonthStatistics(a) == EmployeeMonthStatistics(b)
  {
    assert |a| == |multiset(a)| == |multiset(b)| == |b|;
    FilterPermutation(a, b, IsCompleted);
    FilterPermutation(a, b, IsActive);
    FilterPermutation(a, b, HasPositiveDuration);
    FilterPermutation(a, b, HasDuration);
    SumPermutation(Filter(a, HasPositiveDuration), Filter(b, HasPositiveDuration), DurationOrZero);
    SumPermutation(Filter(a, HasDuration), Filter(b, HasDuration), DurationOrZero);
    SumPermutation(CompletedScope(a), CompletedScope(b), DurationOrZero);
    FilterPermutation(CompletedScope(a), CompletedScope(b), HasDuration);
    SumPermutation(Filter(CompletedScope(a), HasDuration), Filter(CompletedScope(b), HasDuration), DurationOrZero);
  }

  /** `latest('check_in')`: newest check-in first. */
  ghost predicate LatestFirst(atts: seq<Attendance>) {
    forall i, j :: 0 <= i < j < |atts| ==> atts[i].checkIn >= atts[j].checkIn
  }

  /** Any slice of a newest-first listing is newest first. */
  lemma LatestFirstSlice(s: seq<Attendance>, lo: nat, hi: nat)
    requires lo <= hi <= |s|
    requires LatestFirst(s)
    ensures LatestFirst(s[lo..hi])
  {
    forall i, j | 0 <= i < j < hi - lo
      ensures s[lo..hi][i].checkIn >= s[lo..hi][j].checkIn
    {
      assert s[lo..hi][i] == s[lo + i] && s[lo..hi][j] == s[lo + j];
    }
  }

  function InsertByCheckIn(a: Attendance, sorted: seq<Attendance>): (r: seq<Attendance>)
    requires LatestFirst(sorted)
    ensures LatestFirst(r)
    ensures multiset(r) == multiset(sorted) + multiset{a}
    ensures |r| == |sorted| + 1
    ensures r[0] == a || (|sorted| > 0 && r[0] == sorted[0])
    decreases |sorted|
  {
    if |sorted| == 0 then [a]
    else if a.checkIn >= sorted[0].checkIn then [a] + sorted
    else
      var rest := InsertByCheckIn(a, sorted[1..]);
      assert sorted == [sorted[0]] + sorted[1..];
      assert rest[0].checkIn <= sorted[0].checkIn;
      [sorted[0]] + rest
  }

  /** The records ordered newest check-in first: a permutation of its input. */
  function OrderLatestFirst(atts: seq<Attendance>): (r: seq<Attendance>)
    ensures LatestFirst(r)
    ensures multiset(r) == multiset(atts)
    ensures |r| == |atts|
    ensures forall x :: x in r <==> x in atts
    decreases |atts|
  {
    if |atts| == 0 then []
    else
      assert atts == [atts[0]] + atts[1..];
      var r := InsertByCheckIn(atts[0], OrderLatestFirst(atts[1..]));
      SameMembers(r, atts);
      r
  }
}
