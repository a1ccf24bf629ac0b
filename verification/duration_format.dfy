/** How the history page and the report dashboard show a record's duration:
    `formatDuration` renders whole minutes as "{h}h {m}m", and the duration
    cell next to each record is rendered only for a truthy duration. */
module DurationFormat {
  import opened Base
  import opened Clock
  import opened Geo
  import opened Attendances
  import opened Engine

  predicate IsDigit(c: char) {
    '0' <= c <= '9'
  }

  predicate AllDigits(s: string) {
    forall i :: 0 <= i < |s| ==> IsDigit(s[i])
  }

  function DigitChar(d: nat): (c: char)
    requires d < 10
    ensures IsDigit(c)
  {
    (d + '0' as int) as char
  }

  /** Decimal value of a digit string, most significant digit first. */
  function DigitsValue(s: string): nat
    requires AllDigits(s)
  {
    if |s| == 0 then 0 else DigitsValue(s[..|s| - 1]) * 10 + (s[|s| - 1] as int - '0' as int)
  }

  /** The decimal digits of a natural number, without leading zeros. */
  function NatToString(n: nat): (s: string)
    ensures 1 <= |s|
    ensures AllDigits(s)
    ensures |s| > 1 ==> s[0] != '0'
    decreases n
  {
    if n < 10 then [DigitChar(n)] else NatToString(n / 10) + [DigitChar(n % 10)]
  }

  /** Reading back the digits gives the number. */
  lemma {:induction false} NatToStringRoundTrip(n: nat)
    ensures DigitsValue(NatToString(n)) == n
    decreases n
  {
    if n >= 10 {
      NatToStringRoundTrip(n / 10);
      var s := NatToString(n);
      assert s[..|s| - 1] == NatToString(n / 10);
    }
  }

  /** JavaScript's rendering of an integer in a template literal. */
  function IntToString(i: int): (s: string)
    ensures |s| > 0 && (s[0] == '-' <==> i < 0)
    ensures i >= 0 ==> AllDigits(s) && DigitsValue(s) == i && (|s| > 1 ==> s[0] != '0')
    ensures i < 0 ==> AllDigits(s[1..]) && DigitsValue(s[1..]) == -i && (|s| > 2 ==> s[1] != '0')
  {
    if i < 0 then
      NatToStringRoundTrip(-i);
      assert ("-" + NatToString(-i))[1..] == NatToString(-i);
      "-" + NatToString(-i)
    else
      NatToStringRoundTrip(i);
      NatToString(i)
  }

  /** JavaScript truthiness of a nullable number: null and 0 are false. */
  predicate Truthy(minutes: Option<int>) {
    minutes.Some? && minutes.value != 0
  }

  /** `formatDuration`: "N/A" for a falsy duration, otherwise the floor of the
      hours and the remainder minutes (sign of the dividend), as `{h}h {m}m`. */
  function FormatDuration(minutes: Option<int>): (s: string)
    ensures !Truthy(minutes) ==> s == "N/A"
    ensures Truthy(minutes) ==> |s| > 0 && s[|s| - 1] == 'm' && s != "N/A"
  {
    if !Truthy(minutes) then "N/A"
    else
      var split := SplitMinutes(minutes.value);
      IntToString(split.hours) + "h " + IntToString(split.minutes) + "m"
  }

  /** Position of the first `c` in `s`. */
  function IndexOf(s: string, c: char): (r: Option<nat>)
    ensures r.Some? ==> r.value < |s| && s[r.value] == c && forall j :: 0 <= j < r.value ==> s[j] != c
    ensures r.None? ==> forall j :: 0 <= j < |s| ==> s[j] != c
  {
    if |s| == 0 then None
    else if s[0] == c then Some(0)
    else match IndexOf(s[1..], c)
      case None => None
      case Some(k) => Some(k + 1)
  }

  /** A decimal part as `${n}` writes it for n >= 0: digits, no leading zero. */
  predicate Unpadded(part: string) {
    0 < |part| && AllDigits(part) && (|part| == 1 || part[0] != '0')
  }

  /** Reads "{h}h {m}m" with unpadded unsigned decimal parts and fewer than 60
      minutes back into total minutes; any other shape is rejected. */
  function ParseDuration(s: string): (r: Option<int>)
    ensures r.Some? ==> r.value >= 0
  {
    match IndexOf(s, 'h')
    case None => None
    case Some(k) =>
      if k + 3 <= |s| && s[k + 1] == ' ' && s[|s| - 1] == 'm'
         && 0 < k && Unpadded(s[..k]) && Unpadded(s[k + 2..|s| - 1])
         && DigitsValue(s[k + 2..|s| - 1]) < 60
      then Some(DigitsValue(s[..k]) * 60 + DigitsValue(s[k + 2..|s| - 1]))
      else None
  }

  /** A minutes part of 60 or more is not a reading of the split: "0h 125m" is
      rejected, while "2h 5m" reads as 125. */
  lemma ParseRejectsUnsplitMinutes()
    ensures ParseDuration("0h 125m") == None
    ensures ParseDuration("2h 5m") == Some(125)
  {
    assert IndexOf("0h 125m", 'h') == Some(1);
    assert "0h 125m"[3..6] == "125";
    assert DigitsValue("125") == 125 by {
      assert "125"[..2] == "12";
      assert "12"[..1] == "1";
      assert "1"[..0] == "";
    }
    assert IndexOf("2h 5m", 'h') == Some(1);
    assert "2h 5m"[..1] == "2" && "2h 5m"[3..4] == "5";
    assert "2"[..0] == "" && "5"[..0] == "";
  }

  /** For a positive duration the text is exact: reading back its hours and
      minutes gives the minutes formatted. */
  lemma FormatParseRoundTrip(m: int)
    requires m > 0
    ensures ParseDuration(FormatDuration(Some(m))) == Some(m)
  {
    var split := SplitMinutes(m);
    var hs := IntToString(split.hours);
    var ms := IntToString(split.minutes);
    var s := FormatDuration(Some(m));
    assert s == hs + "h " + ms + "m";
    assert forall j :: 0 <= j < |hs| ==> s[j] == hs[j] && s[j] != 'h';
    assert s[|hs|] == 'h';
    assert IndexOf(s, 'h') == Some(|hs|);
    assert s[..|hs|] == hs;
    assert s[|hs| + 2..|s| - 1] == ms;
  }

  /** An unpadded digit string is the decimal rendering of its value. */
  lemma {:induction false} UnpaddedIsRendering(part: string)
    requires Unpadded(part)
    ensures part == NatToString(DigitsValue(part))
    decreases |part|
  {
    if |part| > 1 {
      var q := part[..|part| - 1];
      assert Unpadded(q) by {
        assert q[0] == part[0];
        assert forall i :: 0 <= i < |q| ==> q[i] == part[i];
      }
      UnpaddedIsRendering(q);
      var n := DigitsValue(part);
      assert n / 10 == DigitsValue(q) && n % 10 == part[|part| - 1] as int - '0' as int;
      assert part == q + [part[|part| - 1]];
    }
  }

  /** Every text the reader accepts for a positive duration is exactly the text
      `formatDuration` writes for it: the format is pinned character by
      character. */
  lemma ParsedTextIsFormatted(s: string, m: int)
    requires m > 0
    requires ParseDuration(s) == Some(m)
    ensures s == FormatDuration(Some(m))
  {
    var k := IndexOf(s, 'h').value;
    var hs := s[..k];
    var ms := s[k + 2..|s| - 1];
    UnpaddedIsRendering(hs);
    UnpaddedIsRendering(ms);
    assert SplitMinutes(m) == HoursMinutes(DigitsValue(hs), DigitsValue(ms));
    assert s == hs + "h " + ms + "m";
  }

  /** Zero-padded parts are not what `${n}` writes: "02h 05m" is rejected. */
  lemma ParseRejectsPaddedParts()
    ensures ParseDuration("02h 05m") == None
  {
    assert IndexOf("02h 05m", 'h') == Some(2);
    assert "02h 05m"[..2] == "02";
  }

  /** The text "N/A" is shown exactly for a null or zero duration. */
  lemma NotApplicableExactlyWhenFalsy(minutes: Option<int>)
    ensures FormatDuration(minutes) == "N/A" <==> minutes.None? || minutes == Some(0)
  {
  }

  /** What a JSX expression child renders. */
  datatype Rendered =
    | Nothing                     // null, undefined or false
    | BareText(text: string)      // a number or string rendered as text
    | DurationBox(caption: string)  // the duration element with its label

  /** The duration cell as written, `{work_duration && (<div>…</div>)}`: `&&`
      yields its left operand when that is falsy, and React renders the number 0
      as the text "0". */
  function DurationCellAsWritten(minutes: Option<int>): (r: Rendered)
    ensures minutes.None? ==> r == Nothing
    ensures minutes == Some(0) ==> r == BareText("0")
    ensures Truthy(minutes) ==> r == DurationBox(FormatDuration(minutes))
  {
    match minutes
    case None => Nothing
    case Some(m) => if m == 0 then BareText(IntToString(m)) else DurationBox(FormatDuration(minutes))
  }

  /** The duration cell as intended: the element when the duration is truthy,
      nothing at all otherwise. */
  function DurationCell(minutes: Option<int>): (r: Rendered)
    ensures r != Nothing <==> Truthy(minutes)
    ensures !r.BareText?
    ensures r.DurationBox? ==> r.caption == FormatDuration(minutes) && r.caption != "N/A"
  {
    if Truthy(minutes) then DurationBox(FormatDuration(minutes)) else Nothing
  }

  /** A check-out less than a minute after check-in records a duration of 0, and
      the cell as written then shows a stray "0" where the intended cell shows
      nothing. */
  lemma QuickCheckOutShowsZero(s: Store, userId: nat, req: CheckInInput, t1: Time, req2: CheckOutInput, t2: Time,
                               distance: DistanceFn)
    requires Valid(s)
    requires CheckIn(s, userId, req, t1, distance).Ok?
    requires DayOf(t2) == DayOf(t1) && t1 <= t2 < t1 + 60
    requires CheckOut(CheckIn(s, userId, req, t1, distance).value, userId, req2, t2, distance).Ok?
    ensures var s1 := CheckIn(s, userId, req, t1, distance).value;
            var a := CheckOut(s1, userId, req2, t2, distance).value.0.attendances[|s.attendances|];
            && a.workDuration == Some(0)
            && DurationCellAsWritten(a.workDuration) == BareText("0")
            && DurationCell(a.workDuration) == Nothing
  {
    CheckInThenCheckOut(s, userId, req, t1, req2, t2, distance);
  }

  /** Both cells agree on every duration but 0. */
  lemma CellsAgreeExceptZero(minutes: Option<int>)
    requires minutes != Some(0)
    ensures DurationCellAsWritten(minutes) == DurationCell(minutes)
  {
  }
}
