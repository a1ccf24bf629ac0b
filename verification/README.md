# Attendance sessions, geofence admission and attendance statistics in Dafny

This project models the core of a QR/geolocation attendance tracker. It is a
Laravel back end with React pages.

- An employee checks in at an office. The check-in is admitted only when their
  position lies within the office's radius. It opens an `active` attendance
  record.
- Checking out from the same office's geofence, on the same calendar day,
  completes the record. It appends any notes and derives the worked minutes.
- Form requests authorize and validate both transitions and the office update.
  An office cannot be deleted while users or attendances refer to it.
- Read-only pages select records and fold them into statistics: counts by
  status, summed minutes, hours and a guarded average. They render each
  duration as `{h}h {m}m`.

Everything is pure functions over immutable datatypes. The database is a `Store`
with `seq` tables, and every controller action returns `Result`: the new store,
or the error the controller reports, with nothing written. The modules follow
the program's structure:

| file | module | models |
|---|---|---|
| base.dfy | `Base` | `Option`, `Result`, the order-preserving `Filter` behind every `where`, `SumOf`, `Page` (`paginate`) |
| clock.dfy | `Clock` | integer clock (seconds of local time), calendar day and month, `diffInMinutes`, hours/minutes split |
| geo.dfy | `Geo` | coordinates, the distance function as a parameter, the strict `distance > radius` test |
| offices.dfy, users.dfy | `Offices`, `Users` | office and user rows, `Office::find`, `Office::active()`, roles |
| attendances.dfy | `Attendances` | the attendance row, its scopes, `calculateWorkDuration`, check-out notes |
| engine.dfy | `Engine` | `AttendanceController::store` and `update`, and the store invariant they keep |
| office_admin.dfy | `OfficeAdmin` | `OfficeController::destroy` and `update` |
| requests.dfy | `Requests` | the three form requests: `authorize`, `rules`, and the request pipelines |
| statistics.dfy | `Statistics` | the statistics blocks of the five read-only pages, newest-first ordering |
| reports.dfy | `Reports` | the record selections of the history, dashboard, monthly summary and employee report |
| employees.dfy | `Employees` | the employee list filters and per-employee figures, the employee page |
| duration_format.dfy | `DurationFormat` | `formatDuration` and the duration cell of the two React pages |

Modelling decisions:

- Time is an integer number of seconds of local time. A calendar day is
  `t / 86400`, and the month is the proleptic Gregorian month of that day.
- The great-circle distance is a parameter `(Coord, Coord) -> real`. Only the
  `distance > radius` comparison is modelled, and a distance equal to the radius
  is admitted.
- The user's "today's active attendance" lookup lives in the User model, which
  is not part of this model. It is modelled as the first of the user's records,
  in table order, that passes both the `active` and the `today` scopes of
  `Attendance`. `Engine.TodayActiveMatchesScopes` states this link.
- `isEmployee` is taken to mean role `employee`, as the feature tests assert.
  `canManageEmployees` is a boolean input.
- `work_duration` follows `(int) $check_in->diffInMinutes($check_out)`: signed
  whole minutes, truncated toward zero.

Behaviour of the source that the model keeps, and proves:

- The check-in guard is the only thing that keeps "one active session per user
  per day" true. The schema has plain indexes and no unique constraint.
- Check-out measures against the session's own office, with that office's
  current radius. A session left open on an earlier day can no longer be closed.
- Check-in accepts an inactive office: `exists:offices,id` does not look at
  `is_active`.
- `ReportController::index` reuses one query builder for the page and for its
  statistics, and never clones it. The `completed` filter added for one count
  stays on it, so the hours are summed over completed records only. `paginate`
  leaves its limit and offset on it, so from page 2 on every figure is 0 (see
  Findings).
- The report pages exist twice in the model. The `AsWritten` members follow the
  code, with both defects below. `Reports.ReportIndex` and
  `Reports.EmployeeReport` are the intended pages.
- The history page computes its statistics over the page being shown (15
  records), not the whole month.
- A negative duration splits into parts that do not add back up. For example,
  -5 minutes becomes -1 h and -5 min.

## Model

| member | source | states |
|---|---|---|
| Clock.DayOf | app/Models/Attendance.php:132-135 | the calendar day that `whereDate` compares is the unique d with d·86400 ≤ t < (d+1)·86400 |
| Clock.CivilMonth | app/Models/Attendance.php:143-147 | the month that `whereMonth` compares always lies in 1..12 |
| Clock.SameDaySameMonth | app/Models/Attendance.php:132-147 | two instants on the same calendar day fall in the same month |
| Clock.WholeMinutes | app/Models/Attendance.php:155 | the signed minutes between two instants, truncated toward zero, bracket the elapsed seconds |
| Clock.SplitMinutes | app/Http/Controllers/AttendanceController.php:125-126 | for m ≥ 0: hours·60 + minutes = m with minutes in [0, 60); for m < 0: floor hours, and minutes in (-60, 0] congruent to m modulo 60, as PHP's `%` gives |
| Clock.SplitNegativeDoesNotReconstruct | app/Http/Controllers/AttendanceController.php:125-126 | -5 minutes splits into -1 h and -5 min, which do not add back up to -5 |
| Geo.AdmitsWithinRadius | app/Http/Controllers/AttendanceController.php:66 | the geofence admits exactly distance ≤ radius: the boundary is admitted and one meter beyond is refused |
| Geo.CenterAlwaysAdmitted | app/Models/Office.php:102-116 | under the haversine laws (d(p,p) = 0, d ≥ 0), standing on the office center is admitted for any non-negative radius |
| Offices.FindOffice | app/Http/Controllers/AttendanceController.php:55 | the lookup returns an office carrying the id, and returns nothing exactly when no row has it |
| Offices.ActiveOffices | app/Models/Office.php:88-91 | `active()` keeps exactly the offices with `is_active`, unmodified and in order |
| Offices.ActiveOfficesIdempotent | app/Models/Office.php:88-91 | applying `active()` twice is the same as once |
| Offices.FindOfficeAt | app/Http/Controllers/AttendanceController.php:55 | with unique ids, the lookup finds the one row carrying an id |
| Users.RoleNamed | database/migrations/2024_01_02_000003_add_role_to_users_table.php:15 | a parameter names a role exactly when it is one of the three enum strings |
| Attendances.ActiveScope | app/Models/Attendance.php:110-113 | keeps exactly the records with status `active`, as an order-preserving subsequence |
| Attendances.CompletedScope | app/Models/Attendance.php:121-124 | keeps exactly the records with status `completed`, as an order-preserving subsequence |
| Attendances.TodayScope | app/Models/Attendance.php:132-135 | keeps exactly the records whose check-in day is the day of `now` |
| Attendances.InMonthScope | app/Models/Attendance.php:143-147 | keeps exactly the records whose check-in month and year are the given ones |
| Attendances.ThisMonthScope | app/Models/Attendance.php:143-147 | keeps exactly the records checked in during the month and year of `now` |
| Attendances.OfUser | app/Http/Controllers/AttendanceController.php:142 | keeps exactly one user's records, in order |
| Attendances.ActiveCompletedPartition | database/migrations/2024_01_02_000002_create_attendances_table.php:28 | with two status values, the `active` and `completed` scopes split any set of records, in multiset and in size |
| Attendances.TodayWithinThisMonth | app/Models/Attendance.php:132-147 | narrowing to this month first does not change what `today` selects |
| Attendances.CalculateWorkDuration | app/Models/Attendance.php:152-157 | without a check-out the record is unchanged; with one, only `work_duration` changes, to the signed whole minutes between check-in and check-out; it brackets the elapsed time and is ≥ 0 when check-out ≥ check-in, ≤ 0 otherwise |
| Attendances.AppendNotes | app/Http/Controllers/AttendanceController.php:118 | truthy new notes are appended as old ++ "\n" ++ new (a null old note reads as empty); otherwise the notes stay as they were |
| Attendances.DurationIffCompleted | app/Http/Controllers/AttendanceController.php:113-123 | on a record written by the transitions, a duration is present exactly when it is completed, and it is never negative |
| Engine.FindTodayActive | app/Models/Attendance.php:110-135 | finds the first record at or after an index that is the user's, active and checked in on the day, or reports that none exists |
| Engine.TodayActiveAttendance | app/Models/Attendance.php:110-135 | the user's active record of today, when one exists, and nothing exactly when none does |
| Engine.TodayActiveMatchesScopes | app/Models/Attendance.php:110-135 | the lookup succeeds exactly when the user's records under the `active` and `today` scopes are non-empty, and returns one of them |
| Engine.OpenSession | app/Http/Controllers/AttendanceController.php:72-81 | the new record is active, checked in at `now`, carries the request's office, position, distance and notes, and has no check-out data or duration |
| Engine.CheckIn | app/Http/Controllers/AttendanceController.php:45-84 | guards in order: already checked in today, then unknown office, then distance > radius; success appends exactly one record and leaves offices, users and all earlier records unchanged |
| Engine.CloseSession | app/Http/Controllers/AttendanceController.php:113-123 | the closed record is completed at `now` with the check-out position and distance, appended notes and the whole-minute duration; check-in fields are kept |
| Engine.CheckOut | app/Http/Controllers/AttendanceController.php:89-129 | no active session today gives an error; beyond the session office's radius gives an error; otherwise only that record changes and the message splits its duration |
| Engine.AppendKeepsValid | app/Http/Controllers/AttendanceController.php:49-81 | inserting a well-formed record with the next id at an existing office keeps the store invariant when the user has no active record on its day |
| Engine.CheckInPreservesValid | app/Http/Controllers/AttendanceController.php:49-81 | check-in keeps the store invariant, including at most one active session per user and check-in day |
| Engine.CheckOutPreservesValid | app/Http/Controllers/AttendanceController.php:93-123 | check-out keeps the store invariant |
| Engine.CheckOutNeverMissesOffice | app/Http/Controllers/AttendanceController.php:99-107 | in a valid store the session's office is always found at check-out |
| Engine.SecondCheckInRefused | app/Http/Controllers/AttendanceController.php:49-53 | after a successful check-in, any second check-in that day is refused as "already checked in" |
| Engine.SecondCheckOutRefused | app/Http/Controllers/AttendanceController.php:93-96 | after a successful check-out, a second one that day finds no active attendance |
| Engine.EarlierOpenSessionUntouched | app/Http/Controllers/AttendanceController.php:93 | check-out never changes a record checked in on another day |
| Engine.CheckInThenCheckOut | app/Http/Controllers/AttendanceController.php:45-129 | check-in then check-out on the same day completes the new record with the whole minutes between the two, and the message's parts add up to it |
| Engine.CheckOutAfter125Minutes | app/Http/Controllers/AttendanceController.php:122-128 | 125 minutes between check-in and check-out record 125 and display as 2h 5m |
| Engine.CheckInAdmissionBoundary | app/Http/Controllers/AttendanceController.php:66-70 | a distance equal to the radius is admitted; one meter more is refused with that distance and radius |
| Engine.CheckOutKeepsCompletedChronological | app/Http/Controllers/AttendanceController.php:113-123 | when no check-in lies after `now`, no record ends up checked out before it was checked in |
| OfficeAdmin.OfficeIndex | app/Http/Controllers/OfficeController.php:103 | route-model binding finds the position of the office with the id, or none when absent |
| OfficeAdmin.DestroyOffice | app/Http/Controllers/OfficeController.php:114-133 | unknown office, then a caller who cannot manage employees, then any referring user or attendance is refused; otherwise exactly that office is removed and nothing else changes |
| OfficeAdmin.ApplyUpdate | app/Http/Controllers/OfficeController.php:105 | the office takes the validated name, address, coordinates and radius; `is_active` changes only when given; the id is kept |
| OfficeAdmin.UpdateOffice | app/Http/Controllers/OfficeController.php:103-105 | only the bound office changes, by exactly the validated fields |
| OfficeAdmin.DestroyPreservesValid | app/Http/Controllers/OfficeController.php:123-129 | a permitted deletion keeps the store invariant: every attendance's office is still found |
| OfficeAdmin.UpdatePreservesValid | app/Http/Controllers/OfficeController.php:105 | an update keeps the store invariant |
| OfficeAdmin.SubsequenceKeepsUniqueIds | app/Http/Controllers/OfficeController.php:129 | deleting rows keeps ids unique |
| Requests.Coordinate | app/Http/Requests/CheckInRequest.php:26-27 | `required\|numeric\|between:-b,b` passes exactly numbers in [-b, b], both ends included |
| Requests.OptionalText | app/Http/Requests/CheckInRequest.php:28 | `nullable\|string\|max:n` passes a missing or null value, or a string of at most n characters |
| Requests.RequiredText | app/Http/Requests/UpdateOfficeRequest.php:25-26 | `required\|string` with an optional max passes exactly non-blank strings within the limit |
| Requests.WholeNumber | app/Http/Requests/UpdateOfficeRequest.php:29 | the `integer` rule passes integers and integral decimals |
| Requests.ExistingOfficeId | app/Http/Requests/CheckInRequest.php:25 | `exists:offices,id` passes exactly when the number is the id of a stored office, active or not |
| Requests.BoundedInteger | app/Http/Requests/UpdateOfficeRequest.php:29 | `required\|integer\|min:10\|max:1000` passes exactly integers in range |
| Requests.OptionalBoolean | app/Http/Requests/UpdateOfficeRequest.php:30 | `boolean` passes a missing key and exactly true, false, 0, 1, "0", "1" |
| Requests.ErrorFor | app/Http/Requests/CheckInRequest.php:22-30 | a field appears in the error bag exactly when its rules fail |
| Requests.CheckInErrors | app/Http/Requests/CheckInRequest.php:22-30 | each check-in field is in the error bag exactly when its rule fails, and no other key is |
| Requests.ValidateCheckIn | app/Http/Requests/CheckInRequest.php:22-30 | validation fails exactly when the error bag is non-empty; validated input names an existing office, in-range coordinates and notes of at most 500 characters |
| Requests.CheckOutErrors | app/Http/Requests/CheckOutRequest.php:22-29 | each check-out field is in the error bag exactly when its rule fails; there is no office key |
| Requests.ValidateCheckOut | app/Http/Requests/CheckOutRequest.php:22-29 | validated check-out input has in-range coordinates taken from the request and notes of at most 500 characters |
| Requests.OfficeUpdateErrors | app/Http/Requests/UpdateOfficeRequest.php:22-32 | each office field is in the error bag exactly when its rule fails |
| Requests.ValidateOfficeUpdate | app/Http/Requests/UpdateOfficeRequest.php:22-32 | the validated office carries the sent name (1..255 characters), address, latitude, longitude (in range), radius (in [10, 1000]) and `is_active` value, and `is_active` only when it is sent |
| Requests.HandleCheckIn | app/Http/Requests/CheckInRequest.php:12-15 | non-employees are refused before validation, invalid input is refused with its error bag, and only then does the check-in run, never with an unknown office |
| Requests.HandleCheckOut | app/Http/Requests/CheckOutRequest.php:12-15 | non-employees are refused before validation, and invalid input is refused before the check-out runs |
| Requests.HandleOfficeUpdate | app/Http/Requests/UpdateOfficeRequest.php:12-15 | unknown office (404), then unauthorized, then invalid input; a request that passes all three always updates |
| Requests.ValidatedCheckInFindsOffice | app/Http/Requests/CheckInRequest.php:25 | a validated check-in never fails with an unknown office |
| Requests.CheckOutIgnoresOfficeId | app/Http/Requests/CheckOutRequest.php:24-28 | an `office_id` in a check-out request changes nothing about its validation |
| Requests.ValidatedUpdateKeepsValid | app/Http/Requests/UpdateOfficeRequest.php:29 | an update that passed its form request keeps the store invariant and leaves the office with a radius in [10, 1000] |
| Requests.RangeBoundsInclusive | app/Http/Requests/UpdateOfficeRequest.php:27-29 | ±90, ±180, 10 and 1000 pass; one step beyond, or a non-integral radius, fails |
| Requests.BooleanRuleIsStrict | app/Http/Requests/UpdateOfficeRequest.php:30 | "true", "false", 1.0, 2 and null fail the `boolean` rule |
| Requests.TextLimits | app/Http/Requests/CheckInRequest.php:28 | 500 characters of notes pass and 501 fail; a whitespace-only name counts as missing |
| Statistics.Hours | app/Http/Controllers/ReportController.php:49 | hours are the minutes divided by 60, exactly |
| Statistics.Average | app/Http/Controllers/ReportController.php:50 | the average is 0 when there are no days, and otherwise times the days gives back the hours |
| Statistics.CountsPartition | app/Http/Controllers/ReportController.php:147-156 | the completed and active counts add up to the number of records |
| Statistics.HistoryStatistics | app/Http/Controllers/AttendanceController.php:154-162 | days count the completed records; hours are the minutes of durations > 0 over 60; the average is guarded by days > 0 |
| Statistics.ReportIndexStatistics | app/Http/Controllers/ReportController.php:47-50 | total is the selection size; completed is its completed count; hours sum the non-null durations of completed records only, because the builder is mutated |
| Statistics.MonthlyStatistics | app/Http/Controllers/ReportController.php:145-156 | days count the completed records, incomplete days count the active ones, and the two add up; hours sum durations > 0 over all records |
| Statistics.EmployeeReportStatistics | app/Http/Controllers/ReportController.php:192-208 | days count the completed records in range; hours sum every non-null duration in range; the average is guarded |
| Statistics.EmployeeMonthStatistics | app/Http/Controllers/EmployeeController.php:97-113 | completed days and active sessions are the sizes of the two status groups and add up to the month; hours sum the completed group |
| Statistics.EmptyInputAllZero | app/Http/Controllers/ReportController.php:50 | every statistics block of an empty selection is all zeros |
| Statistics.HourSumsAgree | app/Http/Controllers/ReportController.php:49 | on records written by the transitions, the four ways of summing minutes agree and are non-negative |
| Statistics.StatisticsAgree | app/Http/Controllers/ReportController.php:136-208 | on records written by the transitions, all five pages report the same hours and completed days for the same records |
| Statistics.ReportIndexCountsCompletedOnly | app/Http/Controllers/ReportController.php:48-49 | an active record carrying 60 minutes adds nothing to the dashboard's hours but one hour to the employee report's |
| Statistics.StatisticsIgnoreOrder | app/Http/Controllers/ReportController.php:44-50 | no statistics block depends on the order of the records |
| Statistics.InsertByCheckIn | app/Http/Controllers/ReportController.php:44 | inserting into a newest-first list keeps it newest first and adds exactly the one record |
| Statistics.OrderLatestFirst | app/Http/Controllers/ReportController.php:44 | `latest('check_in')` is a newest-first permutation of its input |
| Reports.StartOfDay | app/Http/Controllers/ReportController.php:27 | a parsed date is the first second of its day |
| Reports.EndOfDay | app/Http/Controllers/ReportController.php:28 | the last second of a day is on that day, and the next second is on the next day |
| Reports.ReportWindowAsWritten | app/Http/Controllers/ReportController.php:27-28 | an explicit end date makes the range end at midnight at the start of that day; missing dates default to the month's bounds |
| Reports.EndDateDroppedAsWritten | app/Http/Controllers/ReportController.php:28 | as written, a noon check-in on the chosen end date is outside the range; with the corrected range it is inside |
| Reports.ReportWindow | app/Http/Controllers/ReportController.php:27-28 | the corrected range: given dates select exactly the check-ins whose day is on or after the start date and on or before the end date |
| Reports.ReportWindowCoversDays | app/Http/Controllers/ReportController.php:182-183 | with both dates given, the range holds exactly the check-ins whose day lies between them, both days included |
| Reports.ReportSelection | app/Http/Controllers/ReportController.php:33-42 | keeps exactly the records with start ≤ check-in ≤ end and the office and user filters when truthy, in order |
| Reports.ReportIndex | app/Http/Controllers/ReportController.php:27-50 | the intended dashboard: at most 20 selected records, newest first, with the end date covering its whole day; the statistics cover the whole selection on every page |
| Reports.ReportIndexStatisticsAsWritten | app/Http/Controllers/ReportController.php:44-50 | as written, the statistics are those of the whole selection on page 1 and all zero on every later page |
| Reports.ReportIndexAsWritten | app/Http/Controllers/ReportController.php:27-50 | the dashboard as written: at most 20 records of the selection ending at midnight of the end date, newest first; whole-selection statistics on page 1 and zeros from page 2 on |
| Reports.AsWrittenWindowWithin | app/Http/Controllers/ReportController.php:27-28 | every instant in the range as written is in the corrected range |
| Reports.LaterPageStatisticsZeroAsWritten | app/Http/Controllers/ReportController.php:44-49 | with a non-empty selection, page 2 or later reports 0 attendances as written, while the intended dashboard reports more than 0 |
| Reports.ReportIndexAgreesOnFirstPage | app/Http/Controllers/ReportController.php:27-50 | on page 1 and without an end date, the dashboard as written equals the intended one |
| Reports.PageOfLatestFirst | app/Http/Controllers/ReportController.php:44 | a page of a newest-first listing is newest first and holds only listed records |
| Reports.ReportStatisticsIgnoreListing | app/Http/Controllers/ReportController.php:44-50 | ordering the selection newest first changes none of the dashboard statistics |
| Reports.HistorySelection | app/Http/Controllers/AttendanceController.php:142-149 | keeps exactly the user's records, narrowed to the chosen month when one is given |
| Reports.History | app/Http/Controllers/AttendanceController.php:142-162 | the page shows at most 15 of the user's records, newest first, and its statistics are computed over that page |
| Reports.HistoryTotalsCoverOnePage | app/Http/Controllers/AttendanceController.php:151-155 | with more than 15 completed records, the page reports fewer completed days than there are |
| Reports.SummaryEmployees | app/Http/Controllers/ReportController.php:127-133 | the monthly summary lists exactly the active employees, of the office when one is chosen |
| Reports.SummarySelection | app/Http/Controllers/ReportController.php:137-145 | one employee's records in the chosen month, at the chosen office when one is given |
| Reports.MonthlySummary | app/Http/Controllers/ReportController.php:136-158 | one row per listed employee, in order, holding the monthly statistics of that employee's selection |
| Reports.EmployeeRangeSelection | app/Http/Controllers/ReportController.php:185-199 | keeps exactly one employee's records with check-in in the range |
| Reports.EmployeeReport | app/Http/Controllers/ReportController.php:182-208 | the intended employee report: at most 20 in-range records, newest first, with the end date covering its whole day; the statistics cover the whole range |
| Reports.EmployeeReportAsWritten | app/Http/Controllers/ReportController.php:182-208 | the employee report as written: at most 20 records of the range ending at midnight of the end date, newest first; statistics over that whole range on every page |
| Reports.EmployeeReportAgreesWithoutEndDate | app/Http/Controllers/ReportController.php:182-208 | without an end date the employee report as written equals the intended one, on every page |
| Reports.ConsistentSelection | app/Http/Controllers/ReportController.php:33-44 | a selection from records written by the transitions is itself consistent |
| Reports.DashboardAgreesWithEmployeeReport | app/Http/Controllers/ReportController.php:33-50 | on consistent records, the dashboard filtered to one user and that user's report agree on days and hours |
| Employees.ListedRole | app/Http/Controllers/EmployeeController.php:29-33 | the list shows admins exactly for `role=admin`, HRD staff exactly for `role=hrd`, and employees for a missing parameter or any other value |
| Employees.ListEmployees | app/Http/Controllers/EmployeeController.php:28-43 | keeps exactly the users of the listed role, of the office when truthy, and with `is_active` = (status == "1") when a status is present |
| Employees.UnknownRoleListsEmployees | app/Http/Controllers/EmployeeController.php:29-33 | a role parameter naming no role lists the same users as no parameter |
| Employees.StatusOtherThanOneListsInactive | app/Http/Controllers/EmployeeController.php:41-43 | any status other than "1" lists only inactive users |
| Employees.ListStatistics | app/Http/Controllers/EmployeeController.php:24-57 | days count the completed records of the month window; hours are their summed minutes over 60; "active today" holds exactly when the user has an active record checked in today |
| Employees.StartOfMonthFilterRedundant | app/Http/Controllers/EmployeeController.php:49 | the second `check_in >= startOfMonth` filter removes no loaded record |
| Employees.ActiveTodayMeansCheckInRefused | app/Http/Controllers/EmployeeController.php:56 | the list shows an employee as active today exactly when their check-in would be refused as a second one |
| Employees.ShowSelection | app/Http/Controllers/EmployeeController.php:97-100 | keeps exactly the employee's records in the month and year of `now` |
| Employees.ListAgreesWithShow | app/Http/Controllers/EmployeeController.php:49-55 | when the window is exactly the current month, the list and the employee page report the same days and hours |
| Employees.ShowAgreesWithMonthlySummary | app/Http/Controllers/EmployeeController.php:103-113 | on consistent records, the employee page and that month's summary row, with no office chosen, agree on days and hours |
| DurationFormat.NatToString | resources/js/pages/attendance/history.tsx:55 | the decimal rendering of a number is a non-empty digit string without leading zeros |
| DurationFormat.NatToStringRoundTrip | resources/js/pages/attendance/history.tsx:55 | reading the digits back gives the number |
| DurationFormat.IntToString | resources/js/pages/attendance/history.tsx:55 | the text starts with "-" exactly for a negative number; its digits read back as the absolute value and carry no leading zero |
| DurationFormat.FormatDuration | resources/js/pages/attendance/history.tsx:51-56 | a null or zero duration gives "N/A"; any other gives text ending in "m" that is not "N/A" |
| DurationFormat.ParseDuration | resources/js/pages/reports/index.tsx:69-74 | reads "{h}h {m}m" with unpadded decimal parts and fewer than 60 minutes back into a non-negative number of minutes |
| DurationFormat.FormatParseRoundTrip | resources/js/pages/reports/index.tsx:69-74 | for m > 0, the text reads back as m |
| DurationFormat.UnpaddedIsRendering | resources/js/pages/attendance/history.tsx:55 | a digit string without a leading zero is the decimal rendering of its value |
| DurationFormat.ParsedTextIsFormatted | resources/js/pages/reports/index.tsx:71-73 | any text the reader accepts for m > 0 is character for character the text written for m, so the output is exactly `${floor(m/60)}h ${m % 60}m` |
| DurationFormat.ParseRejectsUnsplitMinutes | resources/js/pages/reports/index.tsx:71-73 | "0h 125m" is not a reading of the split, and "2h 5m" reads as 125 |
| DurationFormat.ParseRejectsPaddedParts | resources/js/pages/reports/index.tsx:73 | a zero-padded text such as "02h 05m" is not a reading of the format |
| DurationFormat.NotApplicableExactlyWhenFalsy | resources/js/pages/reports/index.tsx:70 | "N/A" is shown exactly for a null or zero duration |
| DurationFormat.DurationCellAsWritten | resources/js/pages/reports/index.tsx:248-252 | as written, a null duration renders nothing, 0 renders a bare "0", and any other value renders the formatted duration |
| DurationFormat.DurationCell | resources/js/pages/reports/index.tsx:248-252 | the corrected cell renders exactly for a truthy duration, never as bare text, and never shows "N/A" |
| DurationFormat.QuickCheckOutShowsZero | resources/js/pages/attendance/history.tsx:145-149 | a check-out less than a minute after check-in records 0, which the cell as written shows as "0" and the corrected cell hides |
| DurationFormat.CellsAgreeExceptZero | resources/js/pages/attendance/history.tsx:145-149 | the two cells differ only on a zero duration |

## Left out

- The haversine arithmetic of `Office::calculateDistance` is floating-point trigonometry. Distance is a function parameter, and its two laws (zero on equal points, never negative) are stated as a predicate that lemmas assume.
- `check_in_distance` and `check_out_distance` are integer columns. The model keeps the computed real distance and leaves out the conversion on storage.
- `round(…, 2)` on hours and averages is floating point. Hours are exact rationals (`minutes / 60`).
- Numeric strings in requests, and the middleware that trims strings and turns empty ones into null. A request value is already decoded into integer, decimal, text, boolean or null.
- The User model is not part of this model. `getTodayActiveAttendance` is the first of the user's records that passes the `active` and `today` scopes. `canManageEmployees` is a boolean input.
- The role redirects at the top of the read-only pages (history, dashboard, monthly summary, employee report, employee list and page). They return before any computation.
- Carbon parsing of `month`, `start_date` and `end_date`, and time zones. Dates arrive as day numbers or `YearMonth` values, and "now" and the current month's bounds are inputs.
- Pagination and `latest()` ordering of the employee list, and the ten most recent attendances on the employee page. These only affect rendering.
- `ReportController::show` (the daily report) and the other office actions (`index`, `create`, `store`, `show`, `edit`). They are outside the modelled core.
- Inertia rendering, flash-message texts other than the duration split, and the routes.
- `User::employees()` and `User::active()` are read as role `employee` and `is_active`. The User model, which defines them, is not part of this model.
- The dashboard's aggregates keep the builder's `order by check_in`. The model follows a database that accepts this, such as SQLite. A database that rejects ordering an ungrouped aggregate would fail the page instead.
- Concurrency. The controllers take no lock and the schema has no unique constraint, so only sequential transitions are modelled and nothing is claimed about races.
- Statistics.HistoryStatistics: hours are exact rationals, not rounded to two decimals. The same holds for the other statistics blocks.
- Engine.CheckIn: the stored distance is the real distance, not the integer the column keeps.

## Findings

| source | as written | input that shows it | evidently intended | confidence | as-written member | corrected member |
|---|---|---|---|---|---|---|
| app/Http/Controllers/ReportController.php:28 | an explicit `end_date` is parsed to midnight at the start of that day, so `whereBetween` stops there | start and end date both D, a check-in at noon on D (`Reports.EndDateDroppedAsWritten`) | the range includes the whole end day, as the default `endOfMonth()` does | high; not executed | Reports.ReportWindowAsWritten | Reports.ReportWindow |
| app/Http/Controllers/ReportController.php:183 | the employee report parses `end_date` the same way, so that day's records are left out | start and end date both D, a check-in at noon on D (`Reports.EndDateDroppedAsWritten`) | the range includes the whole end day | high; not executed | Reports.EmployeeReportAsWritten | Reports.EmployeeReport |
| app/Http/Controllers/ReportController.php:44 | `paginate(20)` runs on the builder that the statistics reuse, and it leaves `limit 20 offset (page - 1) * 20` on it; from page 2 on, the single row of each aggregate is skipped, so every figure reads as 0 | 25 selected records and `?page=2` (`Reports.LaterPageStatisticsZeroAsWritten`) | the figures describe the whole selection on every page, as on page 1 | medium (rests on Laravel's `paginate` applying `forPage` to the same builder); not executed | Reports.ReportIndexAsWritten | Reports.ReportIndex |
| resources/js/pages/reports/index.tsx:248 | `{attendance.work_duration && (…)}` evaluates to the number 0 for a zero duration, and React renders it as the text "0" | check-out less than 60 seconds after check-in, so `work_duration` is 0 (`DurationFormat.QuickCheckOutShowsZero`) | nothing is rendered for a zero duration | high; not executed | DurationFormat.DurationCellAsWritten | DurationFormat.DurationCell |
| resources/js/pages/attendance/history.tsx:145 | the same `work_duration && (…)` pattern renders a stray "0" under the status badge | check-out less than 60 seconds after check-in (`DurationFormat.QuickCheckOutShowsZero`) | nothing is rendered for a zero duration | high; not executed | DurationFormat.DurationCellAsWritten | DurationFormat.DurationCell |
