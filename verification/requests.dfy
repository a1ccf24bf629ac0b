/** The form requests in front of the transitions: who may send them and which
    inputs pass validation. A request is authorized first (403 otherwise), then
    every field is validated and all failing fields are reported together (422);
    only then does the controller run. */
module Requests {
  import opened Base
  import opened Clock
  import opened Geo
  import opened Offices
  import opened Users
  import opened Engine
  import opened OfficeAdmin

  /** A decoded request value. `Absent` is a key the request does not carry;
      integers and decimals stay apart because the `boolean` rule compares
      strictly. Numeric strings are expected to arrive as numbers. */
  datatype Value =
    | Absent
    | Null
    | Text(text: string)
    | Int(whole: int)
    | Decimal(decimal: real)
    | Flag(flag: bool)

  /** The request input, keyed by field name. */
  type Form = map<string, Value>

  function Get(form: Form, key: string): Value {
    if key in form then form[key] else Absent
  }

  /** The characters PHP's `trim` strips. */
  predicate IsTrimmed(c: char) {
    c == ' ' || c == '\t' || c == '\n' || c == '\r' || c == '\0' || c == '\U{000B}'
  }

  predicate Blank(s: string) {
    forall i :: 0 <= i < |s| ==> IsTrimmed(s[i])
  }

  /** The `required` rule: a missing key, null and a string that trims to nothing
      are all absent. */
  predicate Filled(v: Value) {
    match v
    case Absent => false
    case Null => false
    case Text(s) => !Blank(s)
    case _ => true
  }

  /** The size a `numeric` value is compared by in `between`, `min` and `max`. */
  function NumberOf(v: Value): (r: Option<real>)
    ensures r.Some? <==> v.Int? || v.Decimal?
    ensures v.Int? ==> r == Some(v.whole as real)
    ensures v.Decimal? ==> r == Some(v.decimal)
  {
    match v
    case Int(n) => Some(n as real)
    case Decimal(x) => Some(x)
    case _ => None
  }

  /** `required|numeric|between:-bound,bound`, both ends inclusive. */
  function Coordinate(v: Value, bound: int): (r: Option<real>)
    ensures r.Some? <==>
              (v.Int? && -bound <= v.whole <= bound) || (v.Decimal? && -bound as real <= v.decimal <= bound as real)
    ensures r.Some? ==> NumberOf(v) == r && Filled(v)
  {
    match NumberOf(v)
    case None => None
    case Some(x) => if -bound as real <= x <= bound as real then Some(x) else None
  }

  /** `nullable|string|max:limit`: a missing key or null passes and reads as no
      text; otherwise the value must be a string of at most `limit` characters. */
  function OptionalText(v: Value, limit: nat): (r: Option<Option<string>>)
    ensures r.Some? <==> v.Absent? || v.Null? || (v.Text? && |v.text| <= limit)
    ensures r == Some(None) <==> v.Absent? || v.Null?
    ensures r.Some? && r.value.Some? ==> v == Text(r.value.value) && |r.value.value| <= limit
  {
    match v
    case Absent => Some(None)
    case Null => Some(None)
    case Text(s) => if |s| <= limit then Some(Some(s)) else None
    case _ => None
  }

  /** `required|string|max:limit`; no limit when `limit` is `None`. */
  function RequiredText(v: Value, limit: Option<nat>): (r: Option<string>)
    ensures r.Some? <==> v.Text? && !Blank(v.text) && (limit.Some? ==> |v.text| <= limit.value)
    ensures r.Some? ==> v == Text(r.value) && Filled(v)
  {
    match v
    case Text(s) => if !Blank(s) && (limit.None? || |s| <= limit.value) then Some(s) else None
    case _ => None
  }

  /** The integral value of a number that PHP's integer filter accepts. */
  function WholeNumber(v: Value): (r: Option<int>)
    ensures r.Some? <==> v.Int? || (v.Decimal? && v.decimal.Floor as real == v.decimal)
    ensures r.Some? ==> NumberOf(v) == Some(r.value as real)
  {
    match v
    case Int(n) => Some(n)
    case Decimal(x) => if x.Floor as real == x then Some(x.Floor) else None
    case _ => None
  }

  /** `required|exists:offices,id`: the number must equal the id of a stored
      office. Inactive offices exist too. */
  function ExistingOfficeId(v: Value, offices: seq<Office>): (r: Option<nat>)
    ensures r.Some? ==> FindOffice(offices, r.value).Some? && NumberOf(v) == Some(r.value as real)
    ensures r.None? <==> forall i :: 0 <= i < |offices| ==> NumberOf(v) != Some(offices[i].id as real)
  {
    match WholeNumber(v)
    case None => None
    case Some(n) => if n >= 0 && FindOffice(offices, n).Some? then Some(n) else None
  }

  /** `required|integer|min:lo|max:hi`. */
  function BoundedInteger(v: Value, lo: int, hi: int): (r: Option<int>)
    ensures r.Some? <==> WholeNumber(v).Some? && lo <= WholeNumber(v).value <= hi
    ensures r.Some? ==> r == WholeNumber(v) && lo <= r.value <= hi
  {
    match WholeNumber(v)
    case None => None
    case Some(n) => if lo <= n <= hi then Some(n) else None
  }

  /** `boolean` without `required`: a missing key passes and yields nothing;
      otherwise only `true`, `false`, `0`, `1`, `"0"` and `"1"` pass. */
  function OptionalBoolean(v: Value): (r: Option<Option<bool>>)
    ensures r == Some(None) <==> v.Absent?
    ensures r == Some(Some(true)) <==> v == Flag(true) || v == Int(1) || v == Text("1")
    ensures r == Some(Some(false)) <==> v == Flag(false) || v == Int(0) || v == Text("0")
  {
    match v
    case Absent => Some(None)
    case Flag(b) => Some(Some(b))
    case Int(n) => if n == 1 then Some(Some(true)) else if n == 0 then Some(Some(false)) else None
    case Text(s) => if s == "1" then Some(Some(true)) else if s == "0" then Some(Some(false)) else None
    case _ => None
  }

  /** The error bag entry of one field: its key when the field failed. */
  function ErrorFor(key: string, passed: bool): (r: set<string>)
    ensures key in r <==> !passed
    ensures r <= {key}
  {
    if passed then {} else {key}
  }

  /** Why a form request stops a request before its controller runs. */
  datatype Rejection =
    | Unauthorized                  // `authorize()` returned false
    | Invalid(fields: set<string>)  // these fields failed their rules

  /** `CheckInRequest::authorize`. */
  predicate MayCheckIn(user: User) {
    user.role == Employee
  }

  /** `CheckOutRequest::authorize`. */
  predicate MayCheckOut(user: User) {
    user.role == Employee
  }

  /** `UpdateOfficeRequest::authorize`: the user model's "can manage employees"
      is given by the caller. */
  predicate MayUpdateOffice(canManageEmployees: bool) {
    canManageEmployees
  }

  /** The error bag of `CheckInRequest::rules` against the current office table:
      every failing field, not just the first. */
  function CheckInErrors(form: Form, offices: seq<Office>): (e: set<string>)
    ensures e <= {"office_id", "latitude", "longitude", "notes"}
    ensures "office_id" in e <==> ExistingOfficeId(Get(form, "office_id"), offices).None?
    ensures "latitude" in e <==> Coordinate(Get(form, "latitude"), 90).None?
    ensures "longitude" in e <==> Coordinate(Get(form, "longitude"), 180).None?
    ensures "notes" in e <==> OptionalText(Get(form, "notes"), 500).None?
  {
    ErrorFor("office_id", ExistingOfficeId(Get(form, "office_id"), offices).Some?)
    + ErrorFor("latitude", Coordinate(Get(form, "latitude"), 90).Some?)
    + ErrorFor("longitude", Coordinate(Get(form, "longitude"), 180).Some?)
    + ErrorFor("notes", OptionalText(Get(form, "notes"), 500).Some?)
  }

  /** `CheckInRequest`'s validated input, or its error bag. */
  function ValidateCheckIn(form: Form, offices: seq<Office>): (r: Result<CheckInInput, set<string>>)
    ensures r.Err? <==> CheckInErrors(form, offices) != {}
    ensures r.Err? ==> r.error == CheckInErrors(form, offices)
    ensures r.Ok? ==>
              && FindOffice(offices, r.value.officeId).Some?
              && NumberOf(Get(form, "office_id")) == Some(r.value.officeId as real)
              && -90.0 <= r.value.position.lat <= 90.0
              && -180.0 <= r.value.position.lng <= 180.0
              && NumberOf(Get(form, "latitude")) == Some(r.value.position.lat)
              && NumberOf(Get(form, "longitude")) == Some(r.value.position.lng)
              && (r.value.notes.None? <==> Get(form, "notes") in {Absent, Null})
              && (r.value.notes.Some? ==> Get(form, "notes") == Text(r.value.notes.value) && |r.value.notes.value| <= 500)
  {
    var office := ExistingOfficeId(Get(form, "office_id"), offices);
    var lat := Coordinate(Get(form, "latitude"), 90);
    var lng := Coordinate(Get(form, "longitude"), 180);
    var notes := OptionalText(Get(form, "notes"), 500);
    if office.Some? && lat.Some? && lng.Some? && notes.Some? then
      Ok(CheckInInput(office.value, Coord(lat.value, lng.value), notes.value))
    else
      Err(CheckInErrors(form, offices))
  }

  /** The error bag of `CheckOutRequest::rules`: the same position and notes rules,
      and no office field at all. */
  function CheckOutErrors(form: Form): (e: set<string>)
    ensures e <= {"latitude", "longitude", "notes"}
    ensures "latitude" in e <==> Coordinate(Get(form, "latitude"), 90).None?
    ensures "longitude" in e <==> Coordinate(Get(form, "longitude"), 180).None?
    ensures "notes" in e <==> OptionalText(Get(form, "notes"), 500).None?
  {
    ErrorFor("latitude", Coordinate(Get(form, "latitude"), 90).Some?)
    + ErrorFor("longitude", Coordinate(Get(form, "longitude"), 180).Some?)
    + ErrorFor("notes", OptionalText(Get(form, "notes"), 500).Some?)
  }

  /** `CheckOutRequest`'s validated input, or its error bag. */
  function ValidateCheckOut(form: Form): (r: Result<CheckOutInput, set<string>>)
    ensures r.Err? <==> CheckOutErrors(form) != {}
    ensures r.Err? ==> r.error == CheckOutErrors(form)
    ensures r.Ok? ==>
              && -90.0 <= r.value.position.lat <= 90.0
              && -180.0 <= r.value.position.lng <= 180.0
              && NumberOf(Get(form, "latitude")) == Some(r.value.position.lat)
              && NumberOf(Get(form, "longitude")) == Some(r.value.position.lng)
              && (r.value.notes.None? <==> Get(form, "notes") in {Absent, Null})
              && (r.value.notes.Some? ==> Get(form, "notes") == Text(r.value.notes.value) && |r.value.notes.value| <= 500)
  {
    var lat := Coordinate(Get(form, "latitude"), 90);
    var lng := Coordinate(Get(form, "longitude"), 180);
    var notes := OptionalText(Get(form, "notes"), 500);
    if lat.Some? && lng.Some? && notes.Some? then
      Ok(CheckOutInput(Coord(lat.value, lng.value), notes.value))
    else
      Err(CheckOutErrors(form))
  }

  /** The error bag of `UpdateOfficeRequest::rules`. */
  function OfficeUpdateErrors(form: Form): (e: set<string>)
    ensures e <= {"name", "address", "latitude", "longitude", "radius", "is_active"}
    ensures "name" in e <==> RequiredText(Get(form, "name"), Some(255)).None?
    ensures "address" in e <==> RequiredText(Get(form, "address"), None).None?
    ensures "latitude" in e <==> Coordinate(Get(form, "latitude"), 90).None?
    ensures "longitude" in e <==> Coordinate(Get(form, "longitude"), 180).None?
    ensures "radius" in e <==> BoundedInteger(Get(form, "radius"), 10, 1000).None?
    ensures "is_active" in e <==> OptionalBoolean(Get(form, "is_active")).None?
  {
    ErrorFor("name", RequiredText(Get(form, "name"), Some(255)).Some?)
    + ErrorFor("address", RequiredText(Get(form, "address"), None).Some?)
    + ErrorFor("latitude", Coordinate(Get(form, "latitude"), 90).Some?)
    + ErrorFor("longitude", Coordinate(Get(form, "longitude"), 180).Some?)
    + ErrorFor("radius", BoundedInteger(Get(form, "radius"), 10, 1000).Some?)
    + ErrorFor("is_active", OptionalBoolean(Get(form, "is_active")).Some?)
  }

  /** `UpdateOfficeRequest`'s `validated()` array, or its error bag; the array
      carries `is_active` only when the request does. */
  function ValidateOfficeUpdate(form: Form): (r: Result<OfficeUpdate, set<string>>)
    ensures r.Err? <==> OfficeUpdateErrors(form) != {}
    ensures r.Err? ==> r.error == OfficeUpdateErrors(form)
    ensures r.Ok? ==>
              && 0 < |r.value.name| <= 255 && 0 < |r.value.address|
              && Get(form, "name") == Text(r.value.name) && Get(form, "address") == Text(r.value.address)
              && -90.0 <= r.value.center.lat <= 90.0
              && -180.0 <= r.value.center.lng <= 180.0
              && NumberOf(Get(form, "latitude")) == Some(r.value.center.lat)
              && NumberOf(Get(form, "longitude")) == Some(r.value.center.lng)
              && 10 <= r.value.radius <= 1000
              && NumberOf(Get(form, "radius")) == Some(r.value.radius as real)
              && (r.value.isActive.None? <==> Get(form, "is_active") == Absent)
              && OptionalBoolean(Get(form, "is_active")) == Some(r.value.isActive)
  {
    var name := RequiredText(Get(form, "name"), Some(255));
    var address := RequiredText(Get(form, "address"), None);
    var lat := Coordinate(Get(form, "latitude"), 90);
    var lng := Coordinate(Get(form, "longitude"), 180);
    var radius := BoundedInteger(Get(form, "radius"), 10, 1000);
    var active := OptionalBoolean(Get(form, "is_active"));
    if name.Some? && address.Some? && lat.Some? && lng.Some? && radius.Some? && active.Some? then
      Ok(OfficeUpdate(name.value, address.value, Coord(lat.value, lng.value), radius.value, active.value))
    else
      Err(OfficeUpdateErrors(form))
  }

  /** A check-in request end to end: authorization, validation against the office
      table, then the transition. */
  datatype CheckInOutcome =
    | CheckInRejected(rejection: Rejection)
    | CheckInDone(result: Result<Store, Failure>)

  function HandleCheckIn(s: Store, user: User, form: Form, now: Time, distance: DistanceFn): (r: CheckInOutcome)
    ensures !MayCheckIn(user) ==> r == CheckInRejected(Unauthorized)
    ensures MayCheckIn(user) && ValidateCheckIn(form, s.offices).Err? ==>
              r == CheckInRejected(Invalid(ValidateCheckIn(form, s.offices).error))
    ensures r.CheckInDone? ==>
              && MayCheckIn(user)
              && ValidateCheckIn(form, s.offices).Ok?
              && r.result == CheckIn(s, user.id, ValidateCheckIn(form, s.offices).value, now, distance)
              && r.result != Err(OfficeNotFound)
  {
    if !MayCheckIn(user) then CheckInRejected(Unauthorized)
    else match ValidateCheckIn(form, s.offices)
      case Err(fields) => CheckInRejected(Invalid(fields))
      case Ok(req) => CheckInDone(CheckIn(s, user.id, req, now, distance))
  }

  /** A check-out request end to end. */
  datatype CheckOutOutcome =
    | CheckOutRejected(rejection: Rejection)
    | CheckOutDone(result: Result<(Store, CheckOutSummary), Failure>)

  function HandleCheckOut(s: Store, user: User, form: Form, now: Time, distance: DistanceFn): (r: CheckOutOutcome)
    ensures !MayCheckOut(user) ==> r == CheckOutRejected(Unauthorized)
    ensures MayCheckOut(user) && ValidateCheckOut(form).Err? ==>
              r == CheckOutRejected(Invalid(ValidateCheckOut(form).error))
    ensures r.CheckOutDone? ==>
              && MayCheckOut(user)
              && ValidateCheckOut(form).Ok?
              && r.result == CheckOut(s, user.id, ValidateCheckOut(form).value, now, distance)
  {
    if !MayCheckOut(user) then CheckOutRejected(Unauthorized)
    else match ValidateCheckOut(form)
      case Err(fields) => CheckOutRejected(Invalid(fields))
      case Ok(req) => CheckOutDone(CheckOut(s, user.id, req, now, distance))
  }

  /** An office update end to end: route-model binding (404) comes before the
      form request's authorization and validation. */
  datatype OfficeUpdateOutcome =
    | UpdateRejected(rejection: Rejection)
    | UpdateDone(result: Result<Store, AdminFailure>)

  function HandleOfficeUpdate(s: Store, officeId: nat, canManageEmployees: bool, form: Form): (r: OfficeUpdateOutcome)
    ensures FindOffice(s.offices, officeId).None? ==> r == UpdateDone(Err(NotFound))
    ensures FindOffice(s.offices, officeId).Some? && !MayUpdateOffice(canManageEmployees) ==>
              r == UpdateRejected(Unauthorized)
    ensures FindOffice(s.offices, officeId).Some? && MayUpdateOffice(canManageEmployees)
            && ValidateOfficeUpdate(form).Err? ==>
              r == UpdateRejected(Invalid(ValidateOfficeUpdate(form).error))
    ensures r == UpdateDone(Err(NotFound)) || r.UpdateRejected? || (r.UpdateDone? && r.result.Ok?)
    ensures r.UpdateDone? && r.result.Ok? ==>
              && ValidateOfficeUpdate(form).Ok?
              && r.result == UpdateOffice(s, officeId, canManageEmployees, ValidateOfficeUpdate(form).value)
  {
    if FindOffice(s.offices, officeId).None? then
      UpdateDone(Err(NotFound))
    else if !MayUpdateOffice(canManageEmployees) then
      UpdateRejected(Unauthorized)
    else match ValidateOfficeUpdate(form)
      case Err(fields) => UpdateRejected(Invalid(fields))
      case Ok(u) =>
        assert OfficeIndex(s.offices, officeId, 0).Some?;
        UpdateDone(UpdateOffice(s, officeId, canManageEmployees, u))
  }

  /** Validation looks the office up in the same table the controller does, so a
      validated check-in never reaches `findOrFail`'s 404. */
  lemma ValidatedCheckInFindsOffice(s: Store, user: User, form: Form, now: Time, distance: DistanceFn)
    ensures HandleCheckIn(s, user, form, now, distance) != CheckInDone(Err(OfficeNotFound))
  {
  }

  /** The check-out rules read no office field: whatever `office_id` the request
      carries, validation yields the same result, so the office measured against
      is the open session's. */
  lemma CheckOutIgnoresOfficeId(form: Form, v: Value)
    ensures ValidateCheckOut(form["office_id" := v]) == ValidateCheckOut(form)
  {
    assert Get(form["office_id" := v], "latitude") == Get(form, "latitude");
    assert Get(form["office_id" := v], "longitude") == Get(form, "longitude");
    assert Get(form["office_id" := v], "notes") == Get(form, "notes");
  }

  /** The store invariant survives an office update that came through its form
      request, and the updated office carries the validated radius. */
  lemma ValidatedUpdateKeepsValid(s: Store, officeId: nat, canManageEmployees: bool, form: Form)
    requires Valid(s)
    ensures HandleOfficeUpdate(s, officeId, canManageEmployees, form).UpdateDone?
            && HandleOfficeUpdate(s, officeId, canManageEmployees, form).result.Ok? ==>
              var t := HandleOfficeUpdate(s, officeId, canManageEmployees, form).result.value;
              && Valid(t)
              && FindOffice(t.offices, officeId).Some?
              && 10 <= FindOffice(t.offices, officeId).value.radius <= 1000
  {
    var r := HandleOfficeUpdate(s, officeId, canManageEmployees, form);
    if r.UpdateDone? && r.result.Ok? {
      var u := ValidateOfficeUpdate(form).value;
      UpdatePreservesValid(s, officeId, canManageEmployees, u);
      var t := r.result.value;
      var k :| 0 <= k < |s.offices| && s.offices[k].id == officeId
                 && t.offices[k] == ApplyUpdate(s.offices[k], u)
                 && forall j :: 0 <= j < |s.offices| && j != k ==> t.offices[j] == s.offices[j];
      FindOfficeAt(t.offices, k);
    }
  }

  /** The range rules include their ends: latitude ±90, longitude ±180 and radius
      10 and 1000 pass; one step beyond fails. */
  lemma RangeBoundsInclusive()
    ensures Coordinate(Int(90), 90).Some? && Coordinate(Int(-90), 90).Some?
    ensures Coordinate(Decimal(90.5), 90).None? && Coordinate(Decimal(-90.5), 90).None?
    ensures Coordinate(Int(180), 180).Some? && Coordinate(Int(181), 180).None?
    ensures BoundedInteger(Int(10), 10, 1000).Some? && BoundedInteger(Int(9), 10, 1000).None?
    ensures BoundedInteger(Int(1000), 10, 1000).Some? && BoundedInteger(Int(1001), 10, 1000).None?
    ensures BoundedInteger(Decimal(10.5), 10, 1000).None?
  {
  }

  /** The `boolean` rule is strict: the strings "true" and "false" and a decimal
      one fail it, while null fails because the field is not nullable. */
  lemma BooleanRuleIsStrict()
    ensures OptionalBoolean(Text("true")).None? && OptionalBoolean(Text("false")).None?
    ensures OptionalBoolean(Decimal(1.0)).None? && OptionalBoolean(Null).None?
    ensures OptionalBoolean(Int(2)).None?
  {
  }

  /** Notes of exactly 500 characters pass and 501 fail; a whitespace-only name is
      missing. */
  lemma TextLimits(s: string)
    ensures |s| == 500 ==> OptionalText(Text(s), 500) == Some(Some(s))
    ensures |s| == 501 ==> OptionalText(Text(s), 500).None?
    ensures RequiredText(Text("  "), Some(255)).None?
  {
    assert Blank("  ");
  }
}
