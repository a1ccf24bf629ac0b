/** Office administration the session state machine depends on: deleting an
    office is refused while anything refers to it, and updating one overwrites
    only the validated fields. */
module OfficeAdmin {
  import opened Base
  import opened Geo
  import opened Offices
  import opened Users
  import opened Attendances
  import opened Engine

  datatype AdminFailure =
    | NotFound          // route-model binding found no office with the id
    | Forbidden         // the caller cannot manage employees (redirected, or 403 for a form request)
    | HasDependents     // users or attendance records still refer to the office

  /** Fields of a validated office update. `isActive` is optional: when absent the
      validated array has no such key and the column keeps its value. */
  datatype OfficeUpdate = OfficeUpdate(
    name: string,
    address: string,
    center: Coord,
    radius: int,
    isActive: Option<bool>)

  /** Position of the office with the given id. */
  function OfficeIndex(offices: seq<Office>, id: nat, from: nat): (r: Option<nat>)
    requires from <= |offices|
    ensures r.Some? ==> from <= r.value < |offices| && offices[r.value].id == id
    ensures r.None? ==> forall j :: from <= j < |offices| ==> offices[j].id != id
    decreases |offices| - from
  {
    if from == |offices| then None
    else if offices[from].id == id then Some(from)
    else OfficeIndex(offices, id, from + 1)
  }

  predicate HasUser(users: seq<User>, officeId: nat) {
    exists i :: 0 <= i < |users| && users[i].officeId == Some(officeId)
  }

  predicate HasAttendance(atts: seq<Attendance>, officeId: nat) {
    exists i :: 0 <= i < |atts| && atts[i].officeId == officeId
  }

  function OtherOffice(id: nat): Office -> bool {
    (o: Office) => o.id != id
  }

  /** `OfficeController::destroy`. */
  function DestroyOffice(s: Store, officeId: nat, canManageEmployees: bool): (r: Result<Store, AdminFailure>)
    ensures FindOffice(s.offices, officeId).None? ==> r == Err(NotFound)
    ensures FindOffice(s.offices, officeId).Some? && !canManageEmployees ==> r == Err(Forbidden)
    ensures r.Ok? <==>
              FindOffice(s.offices, officeId).Some? && canManageEmployees
              && !HasUser(s.users, officeId) && !HasAttendance(s.attendances, officeId)
    ensures r.Ok? ==>
              && r.value == s.(offices := r.value.offices)
              && (forall o :: o in r.value.offices <==> o in s.offices && o.id != officeId)
              && IsSubsequence(r.value.offices, s.offices)
  {
    if FindOffice(s.offices, officeId).None? then Err(NotFound)
    else if !canManageEmployees then Err(Forbidden)
    else if HasUser(s.users, officeId) || HasAttendance(s.attendances, officeId) then Err(HasDependents)
    else
      FilterIsSubsequence(s.offices, OtherOffice(officeId));
      Ok(s.(offices := Filter(s.offices, OtherOffice(officeId))))
  }

  /** `$office->update($request->validated())`. */
  function ApplyUpdate(o: Office, u: OfficeUpdate): (r: Office)
    ensures r.id == o.id
    ensures r.name == u.name && r.address == u.address && r.center == u.center && r.radius == u.radius
    ensures r.isActive == (if u.isActive.Some? then u.isActive.value else o.isActive)
  {
    Office(o.id, u.name, u.address, u.center, u.radius, u.isActive.GetOr(o.isActive))
  }

  /** `OfficeController::update`, after its form request has authorized the caller
      and validated the input. */
  function UpdateOffice(s: Store, officeId: nat, canManageEmployees: bool, u: OfficeUpdate): (r: Result<Store, AdminFailure>)
    ensures OfficeIndex(s.offices, officeId, 0).None? ==> r == Err(NotFound)
    ensures OfficeIndex(s.offices, officeId, 0).Some? && !canManageEmployees ==> r == Err(Forbidden)
    ensures r.Ok? ==>
              && canManageEmployees
              && r.value == s.(offices := r.value.offices)
              && |r.value.offices| == |s.offices|
              && exists k :: 0 <= k < |s.offices| && s.offices[k].id == officeId
                   && r.value.offices[k] == ApplyUpdate(s.offices[k], u)
                   && forall j :: 0 <= j < |s.offices| && j != k ==> r.value.offices[j] == s.offices[j]
  {
    match OfficeIndex(s.offices, officeId, 0)
    case None => Err(NotFound)
    case Some(k) =>
      if !canManageEmployees then Err(Forbidden)
      else Ok(s.(offices := s.offices[k := ApplyUpdate(s.offices[k], u)]))
  }

  /** Deleting an office keeps the store valid: nothing referred to it, so every
      open session's office is still found at check-out. */
  lemma DestroyPreservesValid(s: Store, officeId: nat, canManageEmployees: bool)
    requires Valid(s)
    ensures DestroyOffice(s, officeId, canManageEmployees).Ok? ==> Valid(DestroyOffice(s, officeId, canManageEmployees).value)
  {
    var r := DestroyOffice(s, officeId, canManageEmployees);
    if r.Ok? {
      var t := r.value;
      FilterIsSubsequence(s.offices, OtherOffice(officeId));
      SubsequenceKeepsUniqueIds(t.offices, s.offices);
      forall i | 0 <= i < |t.attendances|
        ensures FindOffice(t.offices, t.attendances[i].officeId).Some?
      {
        var a := t.attendances[i];
        assert a.officeId != officeId;
        var o := FindOffice(s.offices, a.officeId).value;
        assert o in t.offices;
      }
    }
  }

  /** Updating an office keeps the store valid: ids are never rewritten, so every
      lookup by id still succeeds. */
  lemma UpdatePreservesValid(s: Store, officeId: nat, canManageEmployees: bool, u: OfficeUpdate)
    requires Valid(s)
    ensures UpdateOffice(s, officeId, canManageEmployees, u).Ok? ==> Valid(UpdateOffice(s, officeId, canManageEmployees, u).value)
  {
    var r := UpdateOffice(s, officeId, canManageEmployees, u);
    if r.Ok? {
      var t := r.value;
      var k := OfficeIndex(s.offices, officeId, 0).value;
      forall i | 0 <= i < |t.attendances|
        ensures FindOffice(t.offices, t.attendances[i].officeId).Some?
      {
        var id := t.attendances[i].officeId;
        var o := FindOffice(s.offices, id).value;
        var j :| 0 <= j < |s.offices| && s.offices[j] == o;
        assert t.offices[j].id == id;
      }
    }
  }

  /** A subsequence of a table with unique ids has unique ids. */
  lemma {:induction false} SubsequenceKeepsUniqueIds(a: seq<Office>, b: seq<Office>)
    requires IsSubsequence(a, b)
    requires UniqueIds(b)
    ensures UniqueIds(a)
    decreases |b|
  {
    if |a| > 0 && |b| > 0 {
      assert UniqueIds(b[1..]) by {
        forall i, j | 0 <= i < j < |b[1..]|
          ensures b[1..][i].id != b[1..][j].id
        {
          assert b[1..][i] == b[i + 1] && b[1..][j] == b[j + 1];
        }
      }
      if a[0] == b[0] && IsSubsequence(a[1..], b[1..]) {
        SubsequenceKeepsUniqueIds(a[1..], b[1..]);
        SubsequenceMembers(a[1..], b[1..]);
        forall j | 0 < j < |a|
          ensures a[0].id != a[j].id
        {
          assert a[j] == a[1..][j - 1];
          assert a[j] in b[1..];
        }
        forall i, j | 0 < i < j < |a|
          ensures a[i].id != a[j].id
        {
          assert a[i] == a[1..][i - 1] && a[j] == a[1..][j - 1];
        }
      } else {
        SubsequenceKeepsUniqueIds(a, b[1..]);
      }
    }
  }

  /** Every element of a subsequence occurs in the sequence. */
  lemma {:induction false} SubsequenceMembers<T>(a: seq<T>, b: seq<T>)
    requires IsSubsequence(a, b)
    ensures forall x :: x in a ==> x in b
    decreases |b|
  {
    if |a| > 0 && |b| > 0 {
      if a[0] == b[0] && IsSubsequence(a[1..], b[1..]) {
        SubsequenceMembers(a[1..], b[1..]);
        assert a == [a[0]] + a[1..];
      } else {
        SubsequenceMembers(a, b[1..]);
      }
    }
  }
}
