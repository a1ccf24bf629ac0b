/** The employee pages: the filtered employee list with this month's figures per
    employee, and one employee's monthly statistics. */
module Employees {
  import opened Base
  import opened Clock
  import opened Geo
  import opened Users
  import opened Attendances
  import opened Statistics
  import opened Engine
  import opened Reports

  /** The role the list shows: the one the `role` parameter names, or employees
      when it names none of the three. */
  function ListedRole(role: Option<string>): (r: Role)
    ensures role == Some("admin") <==> r == Admin
    ensures role == Some("hrd") <==> r == Hrd
    ensures (role.None? || (role.value != "admin" && role.value != "hrd")) <==> r == Employee
  {
    if role.Some? && RoleNamed(role.value).Some? then RoleNamed(role.value).value else Employee
  }

  /** The list's `where` clauses. `status` is compared as a string: `"1"` lists
      active users and any other value lists inactive ones. */
  function ListCriteria(role: Option<string>, officeId: Option<nat>, status: Option<string>): User -> bool {
    (u: User) =>
      && u.role == ListedRole(role)
      && (Given(officeId) ==> u.officeId == Some(officeId.value))
      && (status.Some? ==> u.isActive == (status.value == "1"))
  }

  /** `EmployeeController::index`'s user selection, in table order. */
  function ListEmployees(users: seq<User>, role: Option<string>, officeId: Option<nat>, status: Option<string>)
    : (r: seq<User>)
    ensures forall u :: u in r <==>
              && u in users
              && (role.Some? && role.value in {"employee", "admin", "hrd"} ==> u.role == RoleNamed(role.value).value)
              && (role.None? || role.value !in {"employee", "admin", "hrd"} ==> u.role == Employee)
              && (Given(officeId) ==> u.officeId == Some(officeId.value))
              && (status.Some? ==> u.isActive == (status.value == "1"))
    ensures IsSubsequence(r, users)
  {
    FilterIsSubsequence(users, ListCriteria(role, officeId, status));
    Filter(users, ListCriteria(role, officeId, status))
  }

  /** A `role` parameter naming no role lists the same users as none at all. */
  lemma UnknownRoleListsEmployees(users: seq<User>, role: string, officeId: Option<nat>, status: Option<string>)
    requires role != "employee" && role != "admin" && role != "hrd"
    ensures ListEmployees(users, Some(role), officeId, status) == ListEmployees(users, None, officeId, status)
  {
    FilterCongruent(users, ListCriteria(Some(role), officeId, status), ListCriteria(None, officeId, status));
  }

  /** Any `status` other than `"1"`, `"true"` included, lists only inactive
      users. */
  lemma StatusOtherThanOneListsInactive(users: seq<User>, role: Option<string>, officeId: Option<nat>, status: string)
    requires status != "1"
    ensures forall u :: u in ListEmployees(users, role, officeId, Some(status)) ==> !u.isActive
  {
  }

  /** The per-employee figures of the list. */
  datatype ListStats = ListStats(thisMonthDays: nat, thisMonthHours: real, activeToday: bool)

  /** On or after an instant: the collection filter `check_in >= startOfMonth`. */
  function CheckedInFrom(start: Time): Attendance -> bool {
    (a: Attendance) => a.checkIn >= start
  }

  /** The employee's eager-loaded records (check-in within this month's window),
      filtered again from the start of the month, then to the completed ones. */
  function ListStatistics(atts: seq<Attendance>, userId: nat, thisMonth: Window, now: Time): (r: ListStats)
    ensures r.thisMonthDays == CountCompleted(EmployeeRangeSelection(atts, userId, thisMonth))
    ensures r.thisMonthHours * 60.0 == TotalMinutes(CompletedScope(EmployeeRangeSelection(atts, userId, thisMonth))) as real
    ensures r.activeToday <==> exists i :: 0 <= i < |atts| && IsTodayActive(atts[i], userId, DayOf(now))
  {
    var loaded := EmployeeRangeSelection(atts, userId, thisMonth);
    var fromStart := Filter(loaded, CheckedInFrom(thisMonth.start));
    StartOfMonthFilterRedundant(atts, userId, thisMonth);
    var completed := CompletedScope(fromStart);
    var found := TodayActiveAttendance(atts, userId, now);
    ListStats(|completed|, Hours(TotalMinutes(completed)), found.Some?)
  }

  /** The second `check_in >= startOfMonth` filter removes nothing: every loaded
      record already starts in the window. */
  lemma StartOfMonthFilterRedundant(atts: seq<Attendance>, userId: nat, thisMonth: Window)
    ensures Filter(EmployeeRangeSelection(atts, userId, thisMonth), CheckedInFrom(thisMonth.start))
            == EmployeeRangeSelection(atts, userId, thisMonth)
  {
    var loaded := EmployeeRangeSelection(atts, userId, thisMonth);
    forall i | 0 <= i < |loaded|
      ensures CheckedInFrom(thisMonth.start)(loaded[i])
    {
      assert loaded[i] in loaded;
    }
    FilterAllPass(loaded, CheckedInFrom(thisMonth.start));
  }

  /** The list shows an employee as present today exactly when a check-in by
      them would be refused as a second one. */
  lemma ActiveTodayMeansCheckInRefused(s: Store, userId: nat, thisMonth: Window, now: Time,
                                       req: CheckInInput, distance: DistanceFn)
    ensures ListStatistics(s.attendances, userId, thisMonth, now).activeToday <==>
            CheckIn(s, userId, req, now, distance) == Err(AlreadyCheckedIn)
  {
  }

  /** `EmployeeController::show`'s selection: the employee's records whose
      check-in month and year are those of `now`. */
  function ShowCriteria(userId: nat, now: Time): Attendance -> bool {
    (a: Attendance) => a.userId == userId && MonthOf(a.checkIn) == MonthOf(now)
  }

  function ShowSelection(atts: seq<Attendance>, userId: nat, now: Time): (r: seq<Attendance>)
    ensures forall a :: a in r <==> a in atts && a.userId == userId && MonthOf(a.checkIn) == MonthOf(now)
    ensures IsSubsequence(r, atts)
  {
    FilterIsSubsequence(atts, ShowCriteria(userId, now));
    Filter(atts, ShowCriteria(userId, now))
  }

  /** When the window is exactly the current calendar month, the list and the
      employee page report the same days and the same hours for an employee. */
  lemma ListAgreesWithShow(atts: seq<Attendance>, userId: nat, thisMonth: Window, now: Time)
    requires forall t :: thisMonth.start <= t <= thisMonth.end <==> MonthOf(t) == MonthOf(now)
    ensures ListStatistics(atts, userId, thisMonth, now).thisMonthDays
            == EmployeeMonthStatistics(ShowSelection(atts, userId, now)).completedDays
    ensures ListStatistics(atts, userId, thisMonth, now).thisMonthHours
            == EmployeeMonthStatistics(ShowSelection(atts, userId, now)).totalHours
  {
    forall i | 0 <= i < |atts|
      ensures EmployeeRange(userId, thisMonth)(atts[i]) == ShowCriteria(userId, now)(atts[i])
    {
      assert thisMonth.start <= atts[i].checkIn <= thisMonth.end <==> MonthOf(atts[i].checkIn) == MonthOf(now);
    }
    FilterCongruent(atts, EmployeeRange(userId, thisMonth), ShowCriteria(userId, now));
  }

  /** On a consistent table the employee page and the monthly summary row of the
      same month, with no office chosen, agree on days and hours. */
  lemma ShowAgreesWithMonthlySummary(atts: seq<Attendance>, userId: nat, now: Time)
    requires Consistent(atts)
    ensures EmployeeMonthStatistics(ShowSelection(atts, userId, now)).completedDays
            == MonthlyStatistics(SummarySelection(atts, userId, MonthOf(now), None)).totalDays
    ensures EmployeeMonthStatistics(ShowSelection(atts, userId, now)).totalHours
            == MonthlyStatistics(SummarySelection(atts, userId, MonthOf(now), None)).totalHours
  {
    FilterCongruent(atts, ShowCriteria(userId, now), SummaryCriteria(userId, MonthOf(now), None));
    var selected := ShowSelection(atts, userId, now);
    ConsistentSelection(selected, atts);
    StatisticsAgree(selected);
  }
}
