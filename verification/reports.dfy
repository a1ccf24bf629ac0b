/** The record selections behind the read-side pages: the attendance history, the
    report dashboard, the monthly summary and the per-employee report. Each page
    selects records with `where` clauses, lists them newest first one page at a
    time, and hands a selection to a statistics block. */
module Reports {
  import opened Base
  import opened Clock
  import opened Users
  import opened Attendances
  import opened Statistics

  /** A numeric id filter from the query string applies only when it is truthy:
      a missing parameter and `0` select nothing out. */
  predicate Given(filter: Option<nat>) {
    filter.Some? && filter.value != 0
  }

  /** An inclusive range of instants, as `whereBetween` compares. */
  datatype Window = Window(start: Time, end: Time)

  predicate Within(w: Window, t: Time) {
    w.start <= t <= w.end
  }

  /** `Carbon::parse` of a `Y-m-d` date: midnight at the start of that day. */
  function StartOfDay(day: int): (t: Time)
    ensures DayOf(t) == day
    ensures DayOf(t - 1) == day - 1
  {
    day * SecondsPerDay
  }

  /** `endOfDay()` at whole-second resolution: the last second of the day. */
  function EndOfDay(day: int): (t: Time)
    ensures DayOf(t) == day
    ensures DayOf(t + 1) == day + 1
  {
    day * SecondsPerDay + SecondsPerDay - 1
  }

  /** The date range of the report pages as written: an explicit `end_date` is
      parsed to midnight at the start of that day, so the range stops there. The
      defaults are the current month's first and last instants. */
  function ReportWindowAsWritten(startDay: Option<int>, endDay: Option<int>, thisMonth: Window): (w: Window)
    ensures startDay.Some? ==> w.start == StartOfDay(startDay.value)
    ensures startDay.None? ==> w.start == thisMonth.start
    ensures endDay.Some? ==> w.end == StartOfDay(endDay.value)
    ensures endDay.None? ==> w.end == thisMonth.end
  {
    Window(
      if startDay.Some? then StartOfDay(startDay.value) else thisMonth.start,
      if endDay.Some? then StartOfDay(endDay.value) else thisMonth.end)
  }

  /** As written, a record checked in at noon on the chosen end date is left out
      of a report whose range starts and ends on that date. */
  lemma EndDateDroppedAsWritten(day: int, thisMonth: Window)
    ensures !Within(ReportWindowAsWritten(Some(day), Some(day), thisMonth), StartOfDay(day) + 12 * 3600)
    ensures Within(ReportWindow(Some(day), Some(day), thisMonth), StartOfDay(day) + 12 * 3600)
  {
  }

  /** The date range of the report pages, with the end date covering its whole
      day as the default end of month does. */
  function ReportWindow(startDay: Option<int>, endDay: Option<int>, thisMonth: Window): (w: Window)
    ensures startDay.Some? ==> forall t :: t >= w.start <==> DayOf(t) >= startDay.value
    ensures endDay.Some? ==> forall t :: t <= w.end <==> DayOf(t) <= endDay.value
    ensures startDay.None? ==> w.start == thisMonth.start
    ensures endDay.None? ==> w.end == thisMonth.end
  {
    Window(
      if startDay.Some? then StartOfDay(startDay.value) else thisMonth.start,
      if endDay.Some? then EndOfDay(endDay.value) else thisMonth.end)
  }

  /** With both dates given, the range selects exactly the check-ins whose
      calendar day lies between them, both days included. */
  lemma ReportWindowCoversDays(startDay: int, endDay: int, thisMonth: Window, t: Time)
    ensures Within(ReportWindow(Some(startDay), Some(endDay), thisMonth), t) <==> startDay <= DayOf(t) <= endDay
  {
  }

  /** The dashboard's `where` clauses: check-in in range, and the office and user
      filters when given. */
  function ReportCriteria(w: Window, officeId: Option<nat>, userId: Option<nat>): Attendance -> bool {
    (a: Attendance) =>
      && Within(w, a.checkIn)
      && (Given(officeId) ==> a.officeId == officeId.value)
      && (Given(userId) ==> a.userId == userId.value)
  }

  /** The records `ReportController::index` selects, in table order. */
  function ReportSelection(atts: seq<Attendance>, w: Window, officeId: Option<nat>, userId: Option<nat>)
    : (r: seq<Attendance>)
    ensures forall a :: a in r <==>
              && a in atts && w.start <= a.checkIn <= w.end
              && (Given(officeId) ==> a.officeId == officeId.value)
              && (Given(userId) ==> a.userId == userId.value)
    ensures IsSubsequence(r, atts)
  {
    FilterIsSubsequence(atts, ReportCriteria(w, officeId, userId));
    Filter(atts, ReportCriteria(w, officeId, userId))
  }

  /** What the dashboard shows: one page of 20 records, newest check-in first,
      and a statistics block. */
  datatype ReportView = ReportView(page: seq<Attendance>, statistics: ReportStats)

  /** The dashboard's statistics as written. `paginate` leaves `limit 20 offset
      (page - 1) * 20` on the builder the aggregates reuse, so from page 2 on the
      single aggregate row is skipped and every figure reads as 0. An empty
      selection is not paginated, and its figures are 0 anyway. */
  function ReportIndexStatisticsAsWritten(selected: seq<Attendance>, page: int): (r: ReportStats)
    ensures PageNumber(page) == 1 ==> r == ReportIndexStatistics(selected)
    ensures PageNumber(page) > 1 ==> r == ReportStats(0, 0, 0.0, 0.0)
  {
    if PageNumber(page) == 1 then ReportIndexStatistics(selected) else ReportStats(0, 0, 0.0, 0.0)
  }

  /** `ReportController::index` as written: the end date parsed to midnight, and
      the statistics read through the paginated builder. */
  function ReportIndexAsWritten(atts: seq<Attendance>, startDay: Option<int>, endDay: Option<int>, thisMonth: Window,
                                officeId: Option<nat>, userId: Option<nat>, page: int)
    : (r: ReportView)
    ensures |r.page| <= 20
    ensures LatestFirst(r.page)
    ensures forall a :: a in r.page ==>
              a in ReportSelection(atts, ReportWindowAsWritten(startDay, endDay, thisMonth), officeId, userId)
    ensures PageNumber(page) == 1 ==>
              r.statistics == ReportIndexStatistics(ReportSelection(atts, ReportWindowAsWritten(startDay, endDay, thisMonth), officeId, userId))
    ensures PageNumber(page) > 1 ==> r.statistics == ReportStats(0, 0, 0.0, 0.0)
  {
    var selected := ReportSelection(atts, ReportWindowAsWritten(startDay, endDay, thisMonth), officeId, userId);
    var ordered := OrderLatestFirst(selected);
    PageOfLatestFirst(ordered, 20, page);
    ReportView(Page(ordered, 20, page), ReportIndexStatisticsAsWritten(selected, page))
  }

  /** The dashboard as intended: the end date covers its whole day, and the
      statistics cover the whole selection on every page. */
  function ReportIndex(atts: seq<Attendance>, startDay: Option<int>, endDay: Option<int>, thisMonth: Window,
                       officeId: Option<nat>, userId: Option<nat>, page: int)
    : (r: ReportView)
    ensures |r.page| <= 20
    ensures LatestFirst(r.page)
    ensures forall a :: a in r.page ==> a in ReportSelection(atts, ReportWindow(startDay, endDay, thisMonth), officeId, userId)
    ensures r.statistics.totalAttendances == |ReportSelection(atts, ReportWindow(startDay, endDay, thisMonth), officeId, userId)|
    ensures r.statistics == ReportIndexStatistics(ReportSelection(atts, ReportWindow(startDay, endDay, thisMonth), officeId, userId))
  {
    var selected := ReportSelection(atts, ReportWindow(startDay, endDay, thisMonth), officeId, userId);
    var ordered := OrderLatestFirst(selected);
    var shown := Page(ordered, 20, page);
    PageOfLatestFirst(ordered, 20, page);
    ReportView(shown, ReportIndexStatistics(selected))
  }

  /** Every instant in the range as written is in the corrected range: only the
      end moves, and only later. */
  lemma AsWrittenWindowWithin(startDay: Option<int>, endDay: Option<int>, thisMonth: Window, t: Time)
    requires Within(ReportWindowAsWritten(startDay, endDay, thisMonth), t)
    ensures Within(ReportWindow(startDay, endDay, thisMonth), t)
  {
  }

  /** As written, any page after the first reports zero attendances although the
      selection is not empty; the intended dashboard counts them. */
  lemma LaterPageStatisticsZeroAsWritten(atts: seq<Attendance>, startDay: Option<int>, endDay: Option<int>,
                                         thisMonth: Window, officeId: Option<nat>, userId: Option<nat>, page: int)
    requires page >= 2
    requires ReportSelection(atts, ReportWindowAsWritten(startDay, endDay, thisMonth), officeId, userId) != []
    ensures ReportIndexAsWritten(atts, startDay, endDay, thisMonth, officeId, userId, page).statistics.totalAttendances == 0
    ensures ReportIndex(atts, startDay, endDay, thisMonth, officeId, userId, page).statistics.totalAttendances > 0
  {
    var a := ReportSelection(atts, ReportWindowAsWritten(startDay, endDay, thisMonth), officeId, userId)[0];
    assert a in ReportSelection(atts, ReportWindowAsWritten(startDay, endDay, thisMonth), officeId, userId);
    AsWrittenWindowWithin(startDay, endDay, thisMonth, a.checkIn);
    assert a in ReportSelection(atts, ReportWindow(startDay, endDay, thisMonth), officeId, userId);
  }

  /** On the first page and without an end date the dashboard as written is the
      intended one. */
  lemma ReportIndexAgreesOnFirstPage(atts: seq<Attendance>, startDay: Option<int>, thisMonth: Window,
                                     officeId: Option<nat>, userId: Option<nat>, page: int)
    requires page <= 1
    ensures ReportIndexAsWritten(atts, startDay, None, thisMonth, officeId, userId, page)
            == ReportIndex(atts, startDay, None, thisMonth, officeId, userId, page)
  {
    assert ReportWindowAsWritten(startDay, None, thisMonth) == ReportWindow(startDay, None, thisMonth);
  }

  /** A page of a newest-first listing is itself newest first, and holds only
      records of the listing. */
  lemma PageOfLatestFirst(ordered: seq<Attendance>, perPage: nat, page: int)
    requires perPage > 0
    requires LatestFirst(ordered)
    ensures LatestFirst(Page(ordered, perPage, page))
    ensures forall a :: a in Page(ordered, perPage, page) ==> a in ordered
  {
    var shown := Page(ordered, perPage, page);
    if shown != [] {
      var start := PageStart(perPage, page);
      LatestFirstSlice(ordered, start, start + |shown|);
      forall a | a in shown
        ensures a in ordered
      {
        var i :| 0 <= i < |shown| && shown[i] == a;
        assert ordered[start + i] == a;
      }
    }
  }

  /** Listing the selection newest first does not change its statistics. */
  lemma ReportStatisticsIgnoreListing(atts: seq<Attendance>, w: Window, officeId: Option<nat>, userId: Option<nat>)
    ensures ReportIndexStatistics(OrderLatestFirst(ReportSelection(atts, w, officeId, userId)))
            == ReportIndexStatistics(ReportSelection(atts, w, officeId, userId))
  {
    var selected := ReportSelection(atts, w, officeId, userId);
    StatisticsIgnoreOrder(OrderLatestFirst(selected), selected);
  }

  /** The user's records, narrowed to a month when the history page is given
      one. */
  function HistoryCriteria(userId: nat, month: Option<YearMonth>): Attendance -> bool {
    (a: Attendance) => a.userId == userId && (month.Some? ==> MonthOf(a.checkIn) == month.value)
  }

  function HistorySelection(atts: seq<Attendance>, userId: nat, month: Option<YearMonth>): (r: seq<Attendance>)
    ensures forall a :: a in r <==>
              a in atts && a.userId == userId && (month.Some? ==> MonthOf(a.checkIn) == month.value)
    ensures IsSubsequence(r, atts)
  {
    FilterIsSubsequence(atts, HistoryCriteria(userId, month));
    Filter(atts, HistoryCriteria(userId, month))
  }

  /** What `AttendanceController::show` renders: one page of 15 records, newest
      first, with statistics computed over that page only. */
  datatype HistoryView = HistoryView(page: seq<Attendance>, statistics: HistoryStats)

  function History(atts: seq<Attendance>, userId: nat, month: Option<YearMonth>, page: int): (r: HistoryView)
    ensures |r.page| <= 15
    ensures LatestFirst(r.page)
    ensures forall a :: a in r.page ==> a in HistorySelection(atts, userId, month)
    ensures r.statistics == HistoryStatistics(r.page)
    ensures r.statistics.totalDays <= |r.page|
  {
    var ordered := OrderLatestFirst(HistorySelection(atts, userId, month));
    var shown := Page(ordered, 15, page);
    PageOfLatestFirst(ordered, 15, page);
    HistoryView(shown, HistoryStatistics(shown))
  }

  /** The history totals cover one page, not the month: with more than 15
      completed records in the selection the page reports fewer days than there
      are. */
  lemma HistoryTotalsCoverOnePage(atts: seq<Attendance>, userId: nat, month: Option<YearMonth>, page: int)
    requires CountCompleted(HistorySelection(atts, userId, month)) > 15
    ensures History(atts, userId, month, page).statistics.totalDays < CountCompleted(HistorySelection(atts, userId, month))
  {
  }

  /** The employees listed on the monthly summary: active employees, of the
      given office when one is chosen. */
  function SummaryEmployee(officeId: Option<nat>): User -> bool {
    (u: User) => u.role == Employee && u.isActive && (Given(officeId) ==> u.officeId == Some(officeId.value))
  }

  function SummaryEmployees(users: seq<User>, officeId: Option<nat>): (r: seq<User>)
    ensures forall u :: u in r <==>
              u in users && u.role == Employee && u.isActive && (Given(officeId) ==> u.officeId == Some(officeId.value))
    ensures IsSubsequence(r, users)
  {
    FilterIsSubsequence(users, SummaryEmployee(officeId));
    Filter(users, SummaryEmployee(officeId))
  }

  /** One employee's records in the chosen month, at the chosen office when one is
      given (the attendance's office, not the employee's). */
  function SummaryCriteria(userId: nat, month: YearMonth, officeId: Option<nat>): Attendance -> bool {
    (a: Attendance) =>
      a.userId == userId && MonthOf(a.checkIn) == month && (Given(officeId) ==> a.officeId == officeId.value)
  }

  function SummarySelection(atts: seq<Attendance>, userId: nat, month: YearMonth, officeId: Option<nat>)
    : (r: seq<Attendance>)
    ensures forall a :: a in r <==>
              a in atts && a.userId == userId && MonthOf(a.checkIn) == month
              && (Given(officeId) ==> a.officeId == officeId.value)
    ensures IsSubsequence(r, atts)
  {
    FilterIsSubsequence(atts, SummaryCriteria(userId, month, officeId));
    Filter(atts, SummaryCriteria(userId, month, officeId))
  }

  /** `ReportController::create`: one row per listed employee, in the order they
      are listed. */
  function MonthlySummary(users: seq<User>, atts: seq<Attendance>, month: YearMonth, officeId: Option<nat>)
    : (r: seq<(User, MonthlyRow)>)
    ensures |r| == |SummaryEmployees(users, officeId)|
    ensures forall i :: 0 <= i < |r| ==>
              && r[i].0 == SummaryEmployees(users, officeId)[i]
              && r[i].1 == MonthlyStatistics(SummarySelection(atts, r[i].0.id, month, officeId))
  {
    SummaryRows(SummaryEmployees(users, officeId), atts, month, officeId)
  }

  function SummaryRows(employees: seq<User>, atts: seq<Attendance>, month: YearMonth, officeId: Option<nat>)
    : (r: seq<(User, MonthlyRow)>)
    ensures |r| == |employees|
    ensures forall i :: 0 <= i < |r| ==>
              r[i] == (employees[i], MonthlyStatistics(SummarySelection(atts, employees[i].id, month, officeId)))
  {
    seq(|employees|, i requires 0 <= i < |employees| =>
      (employees[i], MonthlyStatistics(SummarySelection(atts, employees[i].id, month, officeId))))
  }

  /** One employee's records in a date range (`ReportController::edit`). */
  function EmployeeRange(userId: nat, w: Window): Attendance -> bool {
    (a: Attendance) => a.userId == userId && Within(w, a.checkIn)
  }

  function EmployeeRangeSelection(atts: seq<Attendance>, userId: nat, w: Window): (r: seq<Attendance>)
    ensures forall a :: a in r <==> a in atts && a.userId == userId && w.start <= a.checkIn <= w.end
    ensures IsSubsequence(r, atts)
  {
    FilterIsSubsequence(atts, EmployeeRange(userId, w));
    Filter(atts, EmployeeRange(userId, w))
  }

  /** What the employee report shows: one page of 20 records newest first, and
      statistics from separate queries over the whole range. */
  datatype EmployeeReportView = EmployeeReportView(page: seq<Attendance>, statistics: EmployeeReportStats)

  /** `ReportController::edit` as written: the end date parsed to midnight. The
      statistics come from fresh queries, so paging does not touch them. */
  function EmployeeReportAsWritten(atts: seq<Attendance>, userId: nat, startDay: Option<int>, endDay: Option<int>,
                                   thisMonth: Window, page: int)
    : (r: EmployeeReportView)
    ensures |r.page| <= 20
    ensures LatestFirst(r.page)
    ensures forall a :: a in r.page ==> a in EmployeeRangeSelection(atts, userId, ReportWindowAsWritten(startDay, endDay, thisMonth))
    ensures r.statistics == EmployeeReportStatistics(EmployeeRangeSelection(atts, userId, ReportWindowAsWritten(startDay, endDay, thisMonth)))
  {
    var selected := EmployeeRangeSelection(atts, userId, ReportWindowAsWritten(startDay, endDay, thisMonth));
    var ordered := OrderLatestFirst(selected);
    PageOfLatestFirst(ordered, 20, page);
    EmployeeReportView(Page(ordered, 20, page), EmployeeReportStatistics(selected))
  }

  /** The employee report as intended: the end date covers its whole day. */
  function EmployeeReport(atts: seq<Attendance>, userId: nat, startDay: Option<int>, endDay: Option<int>,
                          thisMonth: Window, page: int)
    : (r: EmployeeReportView)
    ensures |r.page| <= 20
    ensures LatestFirst(r.page)
    ensures forall a :: a in r.page ==> a in EmployeeRangeSelection(atts, userId, ReportWindow(startDay, endDay, thisMonth))
    ensures r.statistics == EmployeeReportStatistics(EmployeeRangeSelection(atts, userId, ReportWindow(startDay, endDay, thisMonth)))
  {
    var selected := EmployeeRangeSelection(atts, userId, ReportWindow(startDay, endDay, thisMonth));
    var ordered := OrderLatestFirst(selected);
    var shown := Page(ordered, 20, page);
    PageOfLatestFirst(ordered, 20, page);
    EmployeeReportView(shown, EmployeeReportStatistics(selected))
  }

  /** Without an end date the employee report as written is the intended one, on
      every page. */
  lemma EmployeeReportAgreesWithoutEndDate(atts: seq<Attendance>, userId: nat, startDay: Option<int>,
                                           thisMonth: Window, page: int)
    ensures EmployeeReportAsWritten(atts, userId, startDay, None, thisMonth, page)
            == EmployeeReport(atts, userId, startDay, None, thisMonth, page)
  {
    assert ReportWindowAsWritten(startDay, None, thisMonth) == ReportWindow(startDay, None, thisMonth);
  }

  /** A consistent table stays consistent under any selection from it. */
  lemma ConsistentSelection(r: seq<Attendance>, atts: seq<Attendance>)
    requires Consistent(atts)
    requires forall a :: a in r ==> a in atts
    ensures Consistent(r)
  {
    forall i | 0 <= i < |r|
      ensures WellFormed(r[i]) && Chronological(r[i])
    {
      assert r[i] in atts;
    }
  }

  /** On a consistent table the dashboard filtered to one user and the employee
      report over the same range agree on days and hours: the selections are the
      same records, and the two ways of summing hours agree. */
  lemma DashboardAgreesWithEmployeeReport(atts: seq<Attendance>, userId: nat, w: Window)
    requires Consistent(atts)
    requires userId != 0
    ensures ReportIndexStatistics(ReportSelection(atts, w, None, Some(userId))).completedAttendances
            == EmployeeReportStatistics(EmployeeRangeSelection(atts, userId, w)).totalDays
    ensures ReportIndexStatistics(ReportSelection(atts, w, None, Some(userId))).totalHours
            == EmployeeReportStatistics(EmployeeRangeSelection(atts, userId, w)).totalHours
  {
    var byDashboard := ReportSelection(atts, w, None, Some(userId));
    FilterCongruent(atts, ReportCriteria(w, None, Some(userId)), EmployeeRange(userId, w));
    assert byDashboard == EmployeeRangeSelection(atts, userId, w);
    ConsistentSelection(byDashboard, atts);
    StatisticsAgree(byDashboard);
  }
}
