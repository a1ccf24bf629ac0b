/** The attendance session state machine: check-in opens an `active` record,
    check-out turns it `completed`. Both transitions are pure functions from the
    store to a new store or the error the controller reports; on an error nothing
    is written. */
module Engine {
  import opened Base
  import opened Clock
  import opened Geo
  import opened Offices
  import opened Users
  import opened Attendances

  /** The tables the core reads and writes. `nextId` is the auto-increment counter
      of the attendances table. */
  datatype Store = Store(
    offices: seq<Office>,
    users: seq<User>,
    attendances: seq<Attendance>,
    nextId: nat)

  /** A validated check-in request. */
  datatype CheckInInput = CheckInInput(officeId: nat, position: Coord, notes: Option<string>)

  /** A validated check-out request: it names no office. */
  datatype CheckOutInput = CheckOutInput(position: Coord, notes: Option<string>)

  /** The errors the two transitions report. `OfficeNotFound` is `findOrFail`'s
      404; `OfficeMissing` is a session whose office row is gone, which the
      controller would dereference as null. */
  datatype Failure =
    | AlreadyCheckedIn
    | OfficeNotFound
    | OutOfRange(distance: real, radius: int)
    | NoActiveAttendance
    | OfficeMissing

  /** The "Work duration: {h}h {m}m" figures of the check-out message. */
  datatype CheckOutSummary = CheckOutSummary(duration: int, display: HoursMinutes)

  /** A record the user's "today's active attendance" lookup can return. */
  predicate IsTodayActive(a: Attendance, userId: nat, today: int) {
    a.userId == userId && a.status == Active && DayOf(a.checkIn) == today
  }

  /** First index at or after `from` holding one of the user's active records
      checked in on `today`. */
  function FindTodayActive(atts: seq<Attendance>, userId: nat, today: int, from: nat): (r: Option<nat>)
    requires from <= |atts|
    ensures r.Some? ==>
      && from <= r.value < |atts|
      && IsTodayActive(atts[r.value], userId, today)
      && forall j :: from <= j < r.value ==> !IsTodayActive(atts[j], userId, today)
    ensures r.None? ==> forall j :: from <= j < |atts| ==> !IsTodayActive(atts[j], userId, today)
    decreases |atts| - from
  {
    if from == |atts| then None
    else if IsTodayActive(atts[from], userId, today) then Some(from)
    else FindTodayActive(atts, userId, today, from + 1)
  }

  /** The user's active attendance checked in today, as the position of the first
      such record: the user's records under the `active` and `today` scopes, first
      row taken. */
  function TodayActiveAttendance(atts: seq<Attendance>, userId: nat, now: Time): (r: Option<nat>)
    ensures r.Some? ==> r.value < |atts| && IsTodayActive(atts[r.value], userId, DayOf(now))
    ensures r.None? <==> forall j :: 0 <= j < |atts| ==> !IsTodayActive(atts[j], userId, DayOf(now))
  {
    FindTodayActive(atts, userId, DayOf(now), 0)
  }

  /** The lookup finds a record exactly when the user's records, narrowed by the
      `active` and `today` scopes, are not empty, and the record it finds is one
      of them. */
  lemma TodayActiveMatchesScopes(atts: seq<Attendance>, userId: nat, now: Time)
    ensures TodayActiveAttendance(atts, userId, now).Some? <==>
            |TodayScope(ActiveScope(OfUser(atts, userId)), now)| > 0
    ensures TodayActiveAttendance(atts, userId, now).Some? ==>
            atts[TodayActiveAttendance(atts, userId, now).value] in TodayScope(ActiveScope(OfUser(atts, userId)), now)
  {
    var scoped := TodayScope(ActiveScope(OfUser(atts, userId)), now);
    var r := TodayActiveAttendance(atts, userId, now);
    if r.Some? {
      assert atts[r.value] in scoped;
    }
    if |scoped| > 0 {
      var a := scoped[0];
      assert a in scoped;
      var j :| 0 <= j < |atts| && atts[j] == a;
      assert IsTodayActive(atts[j], userId, DayOf(now));
    }
  }

  /** The record `Attendance::create` writes at check-in. */
  function OpenSession(id: nat, userId: nat, req: CheckInInput, now: Time, distance: real): (a: Attendance)
    ensures a.status == Active && a.checkIn == now && a.userId == userId && a.id == id
    ensures a.officeId == req.officeId && a.checkInPosition == req.position
    ensures a.checkInDistance == distance && a.notes == req.notes
    ensures a.checkOut.None? && a.checkOutPosition.None? && a.checkOutDistance.None? && a.workDuration.None?
    ensures WellFormed(a)
  {
    Attendance(id, userId, req.officeId, now, None, req.position, None, distance, None, None, req.notes, Active)
  }

  /** `AttendanceController::store`. Guards run in order: an active session today,
      the office lookup, then the geofence. */
  function CheckIn(s: Store, userId: nat, req: CheckInInput, now: Time, distance: DistanceFn): (r: Result<Store, Failure>)
    ensures TodayActiveAttendance(s.attendances, userId, now).Some? ==> r == Err(AlreadyCheckedIn)
    ensures TodayActiveAttendance(s.attendances, userId, now).None? && FindOffice(s.offices, req.officeId).None? ==>
              r == Err(OfficeNotFound)
    ensures TodayActiveAttendance(s.attendances, userId, now).None? && FindOffice(s.offices, req.officeId).Some? ==>
              var o := FindOffice(s.offices, req.officeId).value;
              var d := distance(req.position, o.center);
              (Admits(d, o.radius) <==> r.Ok?) && (!Admits(d, o.radius) ==> r == Err(OutOfRange(d, o.radius)))
    ensures r.Ok? ==>
              && r.value.offices == s.offices && r.value.users == s.users
              && r.value.nextId == s.nextId + 1
              && |r.value.attendances| == |s.attendances| + 1
              && r.value.attendances[..|s.attendances|] == s.attendances
              && r.value.attendances[|s.attendances|] ==
                 OpenSession(s.nextId, userId, req, now, distance(req.position, FindOffice(s.offices, req.officeId).value.center))
  {
    if TodayActiveAttendance(s.attendances, userId, now).Some? then Err(AlreadyCheckedIn)
    else match FindOffice(s.offices, req.officeId)
      case None => Err(OfficeNotFound)
      case Some(o) =>
        var d := distance(req.position, o.center);
        if d > o.radius as real then Err(OutOfRange(d, o.radius))
        else
          assert (s.attendances + [OpenSession(s.nextId, userId, req, now, d)])[..|s.attendances|] == s.attendances;
          Ok(s.(attendances := s.attendances + [OpenSession(s.nextId, userId, req, now, d)], nextId := s.nextId + 1))
  }

  /** The update `AttendanceController::update` applies to the open record,
      followed by `calculateWorkDuration`. */
  function CloseSession(a: Attendance, now: Time, req: CheckOutInput, distance: real): (c: Attendance)
    ensures c.status == Completed && c.checkOut == Some(now)
    ensures c.checkOutPosition == Some(req.position) && c.checkOutDistance == Some(distance)
    ensures c.notes == AppendNotes(a.notes, req.notes)
    ensures c.workDuration == Some(WholeMinutes(a.checkIn, now))
    ensures c.id == a.id && c.userId == a.userId && c.officeId == a.officeId
    ensures c.checkIn == a.checkIn && c.checkInPosition == a.checkInPosition && c.checkInDistance == a.checkInDistance
    ensures WellFormed(c)
  {
    CalculateWorkDuration(a.(
      checkOut := Some(now),
      checkOutPosition := Some(req.position),
      checkOutDistance := Some(distance),
      notes := AppendNotes(a.notes, req.notes),
      status := Completed))
  }

  /** `AttendanceController::update`. Guards run in order: an active session today,
      then the geofence of the office the session was opened at, with that
      office's current radius. */
  function CheckOut(s: Store, userId: nat, req: CheckOutInput, now: Time, distance: DistanceFn)
    : (r: Result<(Store, CheckOutSummary), Failure>)
    ensures TodayActiveAttendance(s.attendances, userId, now).None? ==> r == Err(NoActiveAttendance)
    ensures TodayActiveAttendance(s.attendances, userId, now).Some? ==>
              var i := TodayActiveAttendance(s.attendances, userId, now).value;
              var a := s.attendances[i];
              match FindOffice(s.offices, a.officeId)
              case None => r == Err(OfficeMissing)
              case Some(o) =>
                var d := distance(req.position, o.center);
                && (!Admits(d, o.radius) ==> r == Err(OutOfRange(d, o.radius)))
                && (Admits(d, o.radius) ==>
                      && r.Ok?
                      && r.value.0 == s.(attendances := s.attendances[i := CloseSession(a, now, req, d)])
                      && r.value.1.duration == WholeMinutes(a.checkIn, now)
                      && r.value.1.display == SplitMinutes(r.value.1.duration))
    ensures r.Ok? ==>
              && r.value.0.offices == s.offices && r.value.0.users == s.users && r.value.0.nextId == s.nextId
              && |r.value.0.attendances| == |s.attendances|
              && exists i :: 0 <= i < |s.attendances|
                   && IsTodayActive(s.attendances[i], userId, DayOf(now))
                   && r.value.0.attendances[i].status == Completed
                   && forall j :: 0 <= j < |s.attendances| && j != i ==> r.value.0.attendances[j] == s.attendances[j]
  {
    match TodayActiveAttendance(s.attendances, userId, now)
    case None => Err(NoActiveAttendance)
    case Some(i) =>
      var a := s.attendances[i];
      match FindOffice(s.offices, a.officeId)
      case None => Err(OfficeMissing)
      case Some(o) =>
        var d := distance(req.position, o.center);
        if d > o.radius as real then Err(OutOfRange(d, o.radius))
        else
          var closed := CloseSession(a, now, req, d);
          var duration := closed.workDuration.value;
          Ok((s.(attendances := s.attendances[i := closed]), CheckOutSummary(duration, SplitMinutes(duration))))
  }

  /** For every user and calendar day there is at most one active record checked
      in on that day. The schema has no unique constraint; only the check-in guard
      keeps this true. */
  ghost predicate OneActivePerUserDay(atts: seq<Attendance>) {
    forall i, j ::
      (0 <= i < j < |atts| && atts[i].status == Active && atts[j].status == Active
       && atts[i].userId == atts[j].userId)
      ==> DayOf(atts[i].checkIn) != DayOf(atts[j].checkIn)
  }

  /** Every record's fields agree with its status. */
  ghost predicate AllWellFormed(atts: seq<Attendance>) {
    forall i :: 0 <= i < |atts| ==> WellFormed(atts[i])
  }

  /** Every record's office is still in the office table. */
  ghost predicate OfficesExist(s: Store) {
    forall i :: 0 <= i < |s.attendances| ==> FindOffice(s.offices, s.attendances[i].officeId).Some?
  }

  /** Attendance ids are distinct and below the auto-increment counter. */
  ghost predicate FreshIds(s: Store) {
    && (forall i :: 0 <= i < |s.attendances| ==> s.attendances[i].id < s.nextId)
    && (forall i, j :: 0 <= i < j < |s.attendances| ==> s.attendances[i].id != s.attendances[j].id)
  }

  /** The state invariant the transitions keep. */
  ghost predicate Valid(s: Store) {
    && OneActivePerUserDay(s.attendances)
    && AllWellFormed(s.attendances)
    && OfficesExist(s)
    && FreshIds(s)
    && UniqueIds(s.offices)
  }

  /** Appending a well-formed record with the next id, at a known office, keeps
      the invariant when no active record of the same user and day exists. */
  lemma AppendKeepsValid(s: Store, a: Attendance)
    requires Valid(s)
    requires WellFormed(a) && a.id == s.nextId && FindOffice(s.offices, a.officeId).Some?
    requires a.status == Active ==>
               forall j :: 0 <= j < |s.attendances| ==> !IsTodayActive(s.attendances[j], a.userId, DayOf(a.checkIn))
    ensures Valid(s.(attendances := s.attendances + [a], nextId := s.nextId + 1))
  {
    var t := s.(attendances := s.attendances + [a], nextId := s.nextId + 1);
    var n := |s.attendances|;
    assert forall i :: 0 <= i < n ==> t.attendances[i] == s.attendances[i];
    assert t.attendances[n] == a;
    forall i, j | 0 <= i < j < |t.attendances| && t.attendances[i].status == Active
      && t.attendances[j].status == Active && t.attendances[i].userId == t.attendances[j].userId
      ensures DayOf(t.attendances[i].checkIn) != DayOf(t.attendances[j].checkIn)
    {
      if j == n {
        assert !IsTodayActive(s.attendances[i], a.userId, DayOf(a.checkIn));
      }
    }
  }

  /** Check-in keeps the invariant: the new record is the only active one of its
      user on its day, because the guard found none. */
  lemma CheckInPreservesValid(s: Store, userId: nat, req: CheckInInput, now: Time, distance: DistanceFn)
    requires Valid(s)
    ensures CheckIn(s, userId, req, now, distance).Ok? ==> Valid(CheckIn(s, userId, req, now, distance).value)
  {
    if CheckIn(s, userId, req, now, distance).Ok? {
      var o := FindOffice(s.offices, req.officeId).value;
      var a := OpenSession(s.nextId, userId, req, now, distance(req.position, o.center));
      assert CheckIn(s, userId, req, now, distance).value == s.(attendances := s.attendances + [a], nextId := s.nextId + 1);
      AppendKeepsValid(s, a);
    }
  }

  /** Check-out keeps the invariant: it only turns one active record completed and
      leaves every check-in time, user and office as it was. */
  lemma CheckOutPreservesValid(s: Store, userId: nat, req: CheckOutInput, now: Time, distance: DistanceFn)
    requires Valid(s)
    ensures CheckOut(s, userId, req, now, distance).Ok? ==> Valid(CheckOut(s, userId, req, now, distance).value.0)
  {
    var r := CheckOut(s, userId, req, now, distance);
    if r.Ok? {
      var t := r.value.0;
      var i := TodayActiveAttendance(s.attendances, userId, now).value;
      forall j | 0 <= j < |t.attendances|
        ensures t.attendances[j].status == Active ==> t.attendances[j] == s.attendances[j]
        ensures t.attendances[j].userId == s.attendances[j].userId
        ensures t.attendances[j].officeId == s.attendances[j].officeId
        ensures t.attendances[j].checkIn == s.attendances[j].checkIn
        ensures t.attendances[j].id == s.attendances[j].id
        ensures WellFormed(t.attendances[j])
      {
      }
    }
  }

  /** In a valid store the office of an open session is always found, so check-out
      never dereferences a missing office. */
  lemma CheckOutNeverMissesOffice(s: Store, userId: nat, req: CheckOutInput, now: Time, distance: DistanceFn)
    requires Valid(s)
    ensures CheckOut(s, userId, req, now, distance) != Err(OfficeMissing)
  {
  }

  /** A second check-in on the same day, whatever its office or position, is
      refused with "already checked in". */
  lemma SecondCheckInRefused(s: Store, userId: nat, req: CheckInInput, now: Time, req2: CheckInInput, now2: Time,
                             distance: DistanceFn)
    requires CheckIn(s, userId, req, now, distance).Ok?
    requires DayOf(now2) == DayOf(now)
    ensures CheckIn(CheckIn(s, userId, req, now, distance).value, userId, req2, now2, distance) == Err(AlreadyCheckedIn)
  {
    var t := CheckIn(s, userId, req, now, distance).value;
    assert IsTodayActive(t.attendances[|s.attendances|], userId, DayOf(now2));
  }

  /** After a successful check-out, a second check-out on the same day finds no open
      session: completion happens once and the duration is not recomputed. */
  lemma SecondCheckOutRefused(s: Store, userId: nat, req: CheckOutInput, now: Time, req2: CheckOutInput, now2: Time,
                              distance: DistanceFn)
    requires Valid(s)
    requires CheckOut(s, userId, req, now, distance).Ok?
    requires DayOf(now2) == DayOf(now)
    ensures CheckOut(CheckOut(s, userId, req, now, distance).value.0, userId, req2, now2, distance) == Err(NoActiveAttendance)
  {
    var t := CheckOut(s, userId, req, now, distance).value.0;
    var i := TodayActiveAttendance(s.attendances, userId, now).value;
    forall j | 0 <= j < |t.attendances|
      ensures !IsTodayActive(t.attendances[j], userId, DayOf(now2))
    {
      if j != i {
        assert t.attendances[j] == s.attendances[j];
      }
    }
  }

  /** Check-out only ever completes a session checked in today: a session left
      open on an earlier day can no longer be closed by it. */
  lemma EarlierOpenSessionUntouched(s: Store, userId: nat, req: CheckOutInput, now: Time, distance: DistanceFn, k: nat)
    requires k < |s.attendances|
    requires DayOf(s.attendances[k].checkIn) != DayOf(now)
    requires CheckOut(s, userId, req, now, distance).Ok?
    ensures CheckOut(s, userId, req, now, distance).value.0.attendances[k] == s.attendances[k]
  {
  }

  /** Check-in then check-out on the same day closes the session just opened: it
      becomes completed with the whole minutes between the two instants, and the
      message's hours and minutes add back up to that duration. */
  lemma CheckInThenCheckOut(s: Store, userId: nat, req: CheckInInput, t1: Time, req2: CheckOutInput, t2: Time,
                            distance: DistanceFn)
    requires Valid(s)
    requires CheckIn(s, userId, req, t1, distance).Ok?
    requires DayOf(t2) == DayOf(t1) && t1 <= t2
    requires CheckOut(CheckIn(s, userId, req, t1, distance).value, userId, req2, t2, distance).Ok?
    ensures var s1 := CheckIn(s, userId, req, t1, distance).value;
            var (s2, summary) := CheckOut(s1, userId, req2, t2, distance).value;
            var a := s2.attendances[|s.attendances|];
            && a.status == Completed
            && a.checkIn == t1 && a.checkOut == Some(t2)
            && a.workDuration == Some(WholeMinutes(t1, t2))
            && summary.duration == WholeMinutes(t1, t2) >= 0
            && summary.display.hours * 60 + summary.display.minutes == summary.duration
  {
    var s1 := CheckIn(s, userId, req, t1, distance).value;
    CheckInPreservesValid(s, userId, req, t1, distance);
    var n := |s.attendances|;
    var i := TodayActiveAttendance(s1.attendances, userId, t2).value;
    assert IsTodayActive(s1.attendances[n], userId, DayOf(t2));
    if i != n {
      assert false;
    }
  }

  /** Two hours and five minutes between check-in and check-out give a recorded
      duration of 125 minutes, displayed as 2h 5m. */
  lemma CheckOutAfter125Minutes(s: Store, userId: nat, req: CheckInInput, t1: Time, req2: CheckOutInput,
                                distance: DistanceFn)
    requires Valid(s)
    requires CheckIn(s, userId, req, t1, distance).Ok?
    requires DayOf(t1 + 125 * 60) == DayOf(t1)
    requires CheckOut(CheckIn(s, userId, req, t1, distance).value, userId, req2, t1 + 125 * 60, distance).Ok?
    ensures var s1 := CheckIn(s, userId, req, t1, distance).value;
            var (s2, summary) := CheckOut(s1, userId, req2, t1 + 125 * 60, distance).value;
            && s2.attendances[|s.attendances|].workDuration == Some(125)
            && summary.display == HoursMinutes(2, 5)
  {
    CheckInThenCheckOut(s, userId, req, t1, req2, t1 + 125 * 60, distance);
    assert WholeMinutes(t1, t1 + 125 * 60) == 125;
  }

  /** With no open session and a known office, a position exactly on the radius is
      admitted and one meter beyond it is refused. */
  lemma CheckInAdmissionBoundary(s: Store, userId: nat, req: CheckInInput, now: Time, distance: DistanceFn)
    requires TodayActiveAttendance(s.attendances, userId, now).None?
    requires FindOffice(s.offices, req.officeId).Some?
    ensures var o := FindOffice(s.offices, req.officeId).value;
            distance(req.position, o.center) == o.radius as real ==> CheckIn(s, userId, req, now, distance).Ok?
    ensures var o := FindOffice(s.offices, req.officeId).value;
            distance(req.position, o.center) == o.radius as real + 1.0 ==>
              CheckIn(s, userId, req, now, distance) == Err(OutOfRange(o.radius as real + 1.0, o.radius))
  {
  }

  /** Check-in never adds a completion time: records only become completed through
      check-out, and check-out never adds or removes records. */
  lemma CheckOutKeepsCompletedChronological(s: Store, userId: nat, req: CheckOutInput, now: Time, distance: DistanceFn)
    requires forall i :: 0 <= i < |s.attendances| ==> Chronological(s.attendances[i]) && s.attendances[i].checkIn <= now
    requires CheckOut(s, userId, req, now, distance).Ok?
    ensures var t := CheckOut(s, userId, req, now, distance).value.0;
            forall i :: 0 <= i < |t.attendances| ==> Chronological(t.attendances[i])
  {
  }
}
