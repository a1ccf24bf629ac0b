/** Attendance records: their shape, the query scopes over them, the work-duration
    derivation and the notes concatenation performed at check-out. */
module Attendances {
  import opened Base
  import opened Clock
  import opened Geo

  /** The `status` enum has exactly two values. */
  datatype Status = Active | Completed

  /** An attendance row. Check-out columns and `work_duration` are nullable.
      Distances keep the computed meters (see README for the integer columns). */
  datatype Attendance = Attendance(
    id: nat,
    userId: nat,
    officeId: nat,
    checkIn: Time,
    checkOut: Option<Time>,
    checkInPosition: Coord,
    checkOutPosition: Option<Coord>,
    checkInDistance: real,
    checkOutDistance: Option<real>,
    workDuration: Option<int>,
    notes: Option<string>,
    status: Status)

  predicate IsActive(a: Attendance) {
    a.status == Active
  }

  predicate IsCompleted(a: Attendance) {
    a.status == Completed
  }

  /** Selection criteria, named so that scopes and lemmas speak of the same test. */
  function OnDay(day: int): Attendance -> bool {
    (a: Attendance) => DayOf(a.checkIn) == day
  }

  function InMonth(ym: YearMonth): Attendance -> bool {
    (a: Attendance) => MonthOf(a.checkIn) == ym
  }

  function BelongsTo(userId: nat): Attendance -> bool {
    (a: Attendance) => a.userId == userId
  }

  /** `Attendance::active()`. */
  function ActiveScope(atts: seq<Attendance>): (r: seq<Attendance>)
    ensures forall a :: a in r <==> a in atts && a.status == Active
    ensures IsSubsequence(r, atts)
  {
    FilterIsSubsequence(atts, IsActive);
    Filter(atts, IsActive)
  }

  /** `Attendance::completed()`. */
  function CompletedScope(atts: seq<Attendance>): (r: seq<Attendance>)
    ensures forall a :: a in r <==> a in atts && a.status == Completed
    ensures IsSubsequence(r, atts)
  {
    FilterIsSubsequence(atts, IsCompleted);
    Filter(atts, IsCompleted)
  }

  /** `Attendance::today()`: records whose check-in date is the date of `now`. */
  function TodayScope(atts: seq<Attendance>, now: Time): (r: seq<Attendance>)
    ensures forall a :: a in r <==> a in atts && DayOf(a.checkIn) == DayOf(now)
    ensures IsSubsequence(r, atts)
  {
    FilterIsSubsequence(atts, OnDay(DayOf(now)));
    Filter(atts, OnDay(DayOf(now)))
  }

  /** `whereMonth` and `whereYear` on `check_in` for a given month. */
  function InMonthScope(atts: seq<Attendance>, ym: YearMonth): (r: seq<Attendance>)
    ensures forall a :: a in r <==> a in atts && MonthOf(a.checkIn) == ym
    ensures IsSubsequence(r, atts)
  {
    FilterIsSubsequence(atts, InMonth(ym));
    Filter(atts, InMonth(ym))
  }

  /** `Attendance::thisMonth()`: the month and year of `now`. */
  function ThisMonthScope(atts: seq<Attendance>, now: Time): (r: seq<Attendance>)
    ensures forall a :: a in r <==> a in atts && MonthOf(a.checkIn) == MonthOf(now)
    ensures IsSubsequence(r, atts)
  {
    InMonthScope(atts, MonthOf(now))
  }

  /** The records belonging to one user (`$user->attendances()`). */
  function OfUser(atts: seq<Attendance>, userId: nat): (r: seq<Attendance>)
    ensures forall a :: a in r <==> a in atts && a.userId == userId
    ensures IsSubsequence(r, atts)
  {
    FilterIsSubsequence(atts, BelongsTo(userId));
    Filter(atts, BelongsTo(userId))
  }

  /** The `active` and `completed` scopes split any set of records: every record is
      in exactly one of them, so their sizes add up to the whole. */
  lemma ActiveCompletedPartition(atts: seq<Attendance>)
    ensures multiset(ActiveScope(atts)) + multiset(CompletedScope(atts)) == multiset(atts)
    ensures |ActiveScope(atts)| + |CompletedScope(atts)| == |atts|
  {
    FilterPartition(atts, IsActive, IsCompleted);
  }

  /** Every record the `today` scope selects is also selected by `thisMonth`, and
      narrowing to this month first does not change what `today` selects. */
  lemma TodayWithinThisMonth(atts: seq<Attendance>, now: Time)
    ensures TodayScope(ThisMonthScope(atts, now), now) == TodayScope(atts, now)
  {
    var today := OnDay(DayOf(now));
    var month := InMonth(MonthOf(now));
    forall i | 0 <= i < |Filter(atts, today)|
      ensures month(Filter(atts, today)[i])
    {
      SameDaySameMonth(Filter(atts, today)[i].checkIn, now);
    }
    FilterCommutes(atts, month, today);
    FilterAllPass(Filter(atts, today), month);
  }

  /** `calculateWorkDuration`: once a check-out time is set, `work_duration` becomes
      the whole minutes from check-in to check-out; without one the record is
      returned as it was. No other field changes. */
  function CalculateWorkDuration(a: Attendance): (r: Attendance)
    ensures a.checkOut.None? ==> r == a
    ensures a.checkOut.Some? ==>
      && r == a.(workDuration := r.workDuration)
      && r.workDuration == Some(WholeMinutes(a.checkIn, a.checkOut.value))
      && (a.checkOut.value < a.checkIn ==> r.workDuration.value <= 0)
    ensures a.checkOut.Some? && a.checkIn <= a.checkOut.value ==>
      && r.workDuration.Some?
      && 0 <= r.workDuration.value
      && r.workDuration.value * SecondsPerMinute <= a.checkOut.value - a.checkIn
         < (r.workDuration.value + 1) * SecondsPerMinute
  {
    if a.checkOut.Some? then a.(workDuration := Some(WholeMinutes(a.checkIn, a.checkOut.value)))
    else a
  }

  /** PHP truthiness of a nullable string: null, "" and "0" are false. */
  predicate Truthy(s: Option<string>) {
    s.Some? && s.value != "" && s.value != "0"
  }

  /** PHP string concatenation reads a null column as the empty string. */
  function TextOf(s: Option<string>): string {
    s.GetOr("")
  }

  /** Check-out notes: a truthy new note is appended after a newline to the existing
      notes (a null existing note reads as empty, leaving a leading newline);
      otherwise the notes stay as they were. */
  function AppendNotes(existing: Option<string>, added: Option<string>): (r: Option<string>)
    ensures !Truthy(added) ==> r == existing
    ensures Truthy(added) ==>
      && r.Some?
      && |r.value| == |TextOf(existing)| + 1 + |added.value|
      && r.value[..|TextOf(existing)|] == TextOf(existing)
      && r.value[|TextOf(existing)|] == '\n'
      && r.value[|TextOf(existing)| + 1..] == added.value
  {
    if Truthy(added) then Some(TextOf(existing) + "\n" + added.value) else existing
  }

  /** Field consistency of a record written by check-in and check-out: an active
      record has no check-out data and no duration; a completed one has all of it,
      with the duration derived from the two timestamps. */
  ghost predicate WellFormed(a: Attendance) {
    && (a.status == Active ==>
          a.checkOut.None? && a.checkOutPosition.None? && a.checkOutDistance.None? && a.workDuration.None?)
    && (a.status == Completed ==>
          && a.checkOut.Some? && a.checkOutPosition.Some? && a.checkOutDistance.Some?
          && a.workDuration == Some(WholeMinutes(a.checkIn, a.checkOut.value)))
  }

  /** A completed record's check-out does not precede its check-in. */
  ghost predicate Chronological(a: Attendance) {
    a.checkOut.Some? ==> a.checkIn <= a.checkOut.value
  }

  /** A well-formed, chronological record has a duration iff it is completed, and
      that duration is never negative. */
  lemma DurationIffCompleted(a: Attendance)
    requires WellFormed(a) && Chronological(a)
    ensures a.workDuration.Some? <==> a.status == Completed
    ensures a.workDuration.Some? ==> a.workDuration.value >= 0
  {
  }
}
