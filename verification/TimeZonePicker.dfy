/** Picking a time zone from an offset in seconds, through the text of a UTC offset. */
module TimeZonePicker {
  datatype TimeZone = TimeZone(name: string, value: string, offset: string)

  function Abs(x: int): nat {
    if x < 0 then -x else x
  }

  function Digit(n: nat): char
    requires n < 10
  {
    ('0' as int + n) as char
  }

  /** Decimal notation. */
  function ToString(n: nat): string {
    if n < 10 then [Digit(n)] else ToString(n / 10) + [Digit(n % 10)]
  }

  function Pad(v: nat): string {
    if v < 10 then "0" + ToString(v) else ToString(v)
  }

  function FormatUTCOffset(hours: int, minutes: int): string {
    (if hours >= 0 then "+" else "-") + Pad(Abs(hours)) + ":" + Pad(Abs(minutes))
  }

  function Clamp(value: int, min: int, max: int): int {
    if value > max then max else if value < min then min else value
  }

  function Sign(x: int): int {
    if x > 0 then 1 else if x < 0 then -1 else 0
  }

  function OffsetHours(offset: int): int {
    Sign(offset) * Clamp(Abs(offset) / 3600, 0, 23)
  }

  function OffsetMinutes(offset: int): int {
    Clamp((Abs(offset) - Abs(OffsetHours(offset)) * 3600) / 60, 0, 59)
  }

  function Describe(offset: int): string {
    FormatUTCOffset(OffsetHours(offset), OffsetMinutes(offset))
  }

  function WithOffset(zones: seq<TimeZone>, descr: string): seq<TimeZone> {
    if zones == [] then []
    else (if zones[0].offset == descr then [zones[0]] else []) + WithOffset(zones[1..], descr)
  }

  /** The first zone with the description of the offset, or else the first zone of the table. */
  function PickTimeZoneFromOffset(zones: seq<TimeZone>, offset: int): TimeZone
    requires zones != []
  {
    var candidates := WithOffset(zones, Describe(offset));
    if |candidates| > 0 then candidates[0] else zones[0]
  }

  // ---------------------------------------------------------------- what a description says

  /** The sign and the number of minutes an offset text stands for; nothing if it is not of the form `+hh:mm`. */
  function Decode(descr: string): (bool, int) {
    if |descr| == 6 then
      (descr[0] == '-',
       60 * (10 * DigitValue(descr[1]) + DigitValue(descr[2])) + 10 * DigitValue(descr[4]) + DigitValue(descr[5]))
    else (false, -1)
  }

  function DigitValue(c: char): int {
    c as int - '0' as int
  }

  lemma PadTwoDigits(v: nat)
    requires v < 60
    ensures Pad(v) == [Digit(v / 10), Digit(v % 10)]
  {
    assert v >= 10 ==> ToString(v / 10) == [Digit(v / 10)];
  }

  lemma FormatDecodes(hours: int, minutes: int)
    requires -24 < hours < 24 && 0 <= minutes < 60
    ensures Decode(FormatUTCOffset(hours, minutes)) == (hours < 0, 60 * Abs(hours) + minutes)
    ensures var text := FormatUTCOffset(hours, minutes);
      |text| == 6 && text[0] == (if hours < 0 then '-' else '+') && text[3] == ':'
  {
    PadTwoDigits(Abs(hours));
    PadTwoDigits(minutes);
  }

  /** Decoding loses nothing: two offsets in range are written alike only if sign and minutes agree. */
  lemma FormatIsInjective(h: int, m: int, h': int, m': int)
    requires -24 < h < 24 && 0 <= m < 60 && -24 < h' < 24 && 0 <= m' < 60
    ensures FormatUTCOffset(h, m) == FormatUTCOffset(h', m') <==> h == h' && m == m'
  {
    FormatDecodes(h, m);
    FormatDecodes(h', m');
  }

  /** Whole minutes of an offset, at most one minute short of a day. */
  function Minutes(offset: int): nat {
    if Abs(offset) / 60 < 1439 then Abs(offset) / 60 else 1439
  }

  /** The sign is kept except within the hour around zero, where it is always a plus. */
  predicate IsNegative(offset: int) {
    offset < 0 && Minutes(offset) >= 60
  }

  lemma HoursAndMinutes(offset: int)
    ensures Abs(OffsetHours(offset)) == Minutes(offset) / 60 && OffsetMinutes(offset) == Minutes(offset) % 60
    ensures OffsetHours(offset) < 0 <==> IsNegative(offset)
  {
    var a := Abs(offset);
    var h := Clamp(a / 3600, 0, 23);
    assert a / 3600 == (a / 60) / 60;
    assert OffsetHours(offset) == if offset > 0 then h else if offset < 0 then -h else 0;
    if a / 60 < 1439 {
      assert a / 60 == 60 * h + (a / 60) % 60;
      assert (a - h * 3600) / 60 == a / 60 - 60 * h;
    } else {
      assert h == 23;
      assert (a - h * 3600) / 60 >= 59;
    }
  }

  /** For every integer offset, the description encodes its whole minutes, capped below a day, and its sign. */
  lemma DescriptionDecodes(offset: int)
    ensures Decode(Describe(offset)) == (IsNegative(offset), Minutes(offset))
    ensures var text := Describe(offset);
      |text| == 6 && text[0] == (if IsNegative(offset) then '-' else '+') && text[3] == ':'
  {
    HoursAndMinutes(offset);
    FormatDecodes(OffsetHours(offset), OffsetMinutes(offset));
  }

  /** Two offsets are described alike exactly when sign and capped minutes agree. */
  lemma SameDescription(o: int, o': int)
    ensures Describe(o) == Describe(o') <==> IsNegative(o) == IsNegative(o') && Minutes(o) == Minutes(o')
  {
    DescriptionDecodes(o);
    DescriptionDecodes(o');
    HoursAndMinutes(o);
    HoursAndMinutes(o');
  }

  /** An offset truncated toward zero to a whole minute. */
  function TruncateToMinute(offset: int): int {
    if offset < 0 then -(Abs(offset) / 60 * 60) else Abs(offset) / 60 * 60
  }

  /** Picking depends only on the offset truncated toward zero to a minute. */
  lemma PickIgnoresSeconds(zones: seq<TimeZone>, offset: int)
    requires zones != []
    ensures PickTimeZoneFromOffset(zones, offset) == PickTimeZoneFromOffset(zones, TruncateToMinute(offset))
  {
    assert Abs(offset) / 60 * 60 / 60 == Abs(offset) / 60;
    SameDescription(offset, TruncateToMinute(offset));
  }

  // ---------------------------------------------------------------- which zone is picked

  lemma {:induction false} FirstWithOffset(zones: seq<TimeZone>, descr: string)
    ensures WithOffset(zones, descr) == [] <==> forall i :: 0 <= i < |zones| ==> zones[i].offset != descr
    ensures forall i ::
      0 <= i < |zones| && zones[i].offset == descr && (forall j :: 0 <= j < i ==> zones[j].offset != descr) ==>
      WithOffset(zones, descr) != [] && WithOffset(zones, descr)[0] == zones[i]
  {
    if zones != [] {
      FirstWithOffset(zones[1..], descr);
      assert zones[0].offset != descr ==> WithOffset(zones, descr) == WithOffset(zones[1..], descr);
    }
  }

  /** The picked zone is the first whose offset text stands for the sign and minutes of the offset; else the default. */
  lemma PickIsFirstMatch(zones: seq<TimeZone>, offset: int, i: nat)
    requires i < |zones|
    ensures zones[i].offset == Describe(offset) && (forall j :: 0 <= j < i ==> zones[j].offset != Describe(offset))
      ==> PickTimeZoneFromOffset(zones, offset) == zones[i]
    ensures (forall j :: 0 <= j < |zones| ==> zones[j].offset != Describe(offset))
      ==> PickTimeZoneFromOffset(zones, offset) == zones[0]
  {
    FirstWithOffset(zones, Describe(offset));
  }

  // ---------------------------------------------------------------- the table

  /** A row of the table before its offset is written out. */
  datatype Row = Row(name: string, value: string, hours: int, minutes: int)

  const ROWS: seq<Row> := [
    Row("Chatham Islands/New Zealand", "Pacific/Chatham", 12, 45),
    Row("Samoa and Christmas Island/Kiribati", "Pacific/Kiritimati", 14, 0),
    Row("Pacific/Auckland", "New Zealand/Auckland", 12, 0),
    Row("Pacific/Fiji", "Fiji", 12, 0),
    Row("Australia/Melbourne", "Australia/Sydney, Melbourne", 10, 0),
    Row("Australia/Brisbane", "Australia/Brisbane", 10, 0),
    Row("Australia/Adelaide", "Australia/Adelaide, Darwin", 9, 30),
    Row("Asia/Tokyo", "Japan/Tokyo", 9, 0),
    Row("Asia/Pyongyang", "North Korea/Pyongyang", 8, 30),
    Row("Australia/Perth", "Australia/Perth", 8, 0),
    Row("Asia/Shanghai", "China/Beijing Time", 8, 0),
    Row("Asia/Jakarta", "Indonesia/Jakarta", 7, 0),
    Row("Indian/Cocos", "Cocos Islands", 7, 30),
    Row("Asia/Dhaka", "Bangladesh/Dhaka", 6, 0),
    Row("Asia/Kathmandu", "Nepal/Kathmandu", 5, 45),
    Row("Asia/Kolkata", "India", 5, 30),
    Row("Asia/Karachi", "Pakistan/Karachi", 5, 0),
    Row("Asia/Kabul", "Afghanistan/Kabul", 4, 30),
    Row("Asia/Dubai", "Dubai", 4, 0),
    Row("Asia/Tehran", "Iran/Tehran", 3, 30),
    Row("Europe/Moscow", "Russia/Moscow", 3, 0),
    Row("Africa/Cairo", "Egypt/Cairo", 2, 0),
    Row("Europe/Brussels", "Belgium/Brussels", 1, 0),
    Row("Europe/London", "United Kingdom/London", 0, 0),
    Row("UTC", "UTC", 0, 0),
    Row("Atlantic/Cape_Verde", "Cabo Verde/Praia", -1, 0),
    Row("America/St_Johns", "Canada/St. John's", -2, 30),
    Row("America/Buenos_Aires", "Argentina/Buenos Aires", -3, 0),
    Row("America/New_York", "America/New York", -4, 0),
    Row("America/Chicago", "America/Chicago", -5, 0),
    Row("America/Mexico_City", "Mexico/Mexico City", -6, 0),
    Row("America/Los_Angeles", "America/Los Angeles", -7, 0),
    Row("America/Anchorage", "America/Anchorage", -8, 0),
    Row("Pacific/Marquesas", "Marquesas Islands", -9, 30),
    Row("Pacific/Honolulu", "United States/Honolulu", -10, 0),
    Row("US/Samoa", "American Samoa", -10, 0)
  ]

  function Written(rows: seq<Row>): (zones: seq<TimeZone>)
    ensures |zones| == |rows|
    ensures forall i :: 0 <= i < |rows| ==>
      zones[i] == TimeZone(rows[i].name, rows[i].value, FormatUTCOffset(rows[i].hours, rows[i].minutes))
  {
    seq(|rows|, i requires 0 <= i < |rows| =>
      TimeZone(rows[i].name, rows[i].value, FormatUTCOffset(rows[i].hours, rows[i].minutes)))
  }

  /** The offset, in seconds, that a row stands for. */
  function Seconds(row: Row): int {
    Sign(row.hours) * (3600 * Abs(row.hours) + 60 * row.minutes)
  }

  predicate InRange(row: Row) {
    -24 < row.hours < 24 && 0 <= row.minutes < 60 && (row.hours == 0 ==> row.minutes == 0)
  }

  lemma RowDescribesItself(row: Row)
    requires InRange(row)
    ensures Describe(Seconds(row)) == FormatUTCOffset(row.hours, row.minutes)
  {
    var o := Seconds(row);
    var total := 60 * Abs(row.hours) + row.minutes;
    assert Abs(o) == 60 * total && Abs(o) / 60 == total;
    HoursAndMinutes(o);
    assert total / 60 == Abs(row.hours) && total % 60 == row.minutes;
  }

  lemma RowsAreInRange(k: nat)
    requires k < |ROWS|
    ensures InRange(ROWS[k])
  {
  }

  /** The offset of every zone of the table picks the first zone of the table with those hours and minutes. */
  lemma OwnOffsetPicksFirst(k: nat, first: nat)
    requires first <= k < |ROWS|
    requires ROWS[first].hours == ROWS[k].hours && ROWS[first].minutes == ROWS[k].minutes
    requires forall j :: 0 <= j < first ==> ROWS[j].hours != ROWS[k].hours || ROWS[j].minutes != ROWS[k].minutes
    ensures PickTimeZoneFromOffset(Written(ROWS), Seconds(ROWS[k])) == Written(ROWS)[first]
  {
    PicksFirst(ROWS, k, first) by {
      forall j | 0 <= j < |ROWS| ensures InRange(ROWS[j]) { RowsAreInRange(j); }
    }
  }

  lemma PicksFirst(rows: seq<Row>, k: nat, first: nat)
    requires first <= k < |rows| && forall j :: 0 <= j < |rows| ==> InRange(rows[j])
    requires rows[first].hours == rows[k].hours && rows[first].minutes == rows[k].minutes
    requires forall j :: 0 <= j < first ==> rows[j].hours != rows[k].hours || rows[j].minutes != rows[k].minutes
    ensures PickTimeZoneFromOffset(Written(rows), Seconds(rows[k])) == Written(rows)[first]
  {
    var zones, descr := Written(rows), Describe(Seconds(rows[k]));
    RowDescribesItself(rows[k]);
    forall j | 0 <= j < first ensures zones[j].offset != descr {
      FormatIsInjective(rows[j].hours, rows[j].minutes, rows[k].hours, rows[k].minutes);
    }
    PickIsFirstMatch(zones, Seconds(rows[k]), first);
  }

  // ---------------------------------------------------------------- which zone every offset picks

  /** The signed minutes a row stands for, and those an offset is described by. */
  function RowMinutes(row: Row): int {
    if row.hours < 0 then 60 * row.hours - row.minutes else 60 * row.hours + row.minutes
  }

  function SignedMinutes(offset: int): int {
    var m: int := Minutes(offset);
    if IsNegative(offset) then -m else m
  }

  /** The position in the table that is picked for signed minutes; the first row for all others. */
  function PickedRow(minutes: int): (k: nat)
    ensures k < 36
  {
    match minutes
    case 840 => 1 case 765 => 0 case 720 => 2 case 600 => 4 case 570 => 6 case 540 => 7 case 510 => 8
    case 480 => 9 case 450 => 12 case 420 => 11 case 360 => 13 case 345 => 14 case 330 => 15 case 300 => 16
    case 270 => 17 case 240 => 18 case 210 => 19 case 180 => 20 case 120 => 21 case 60 => 22 case 0 => 23
    case -60 => 25 case -150 => 26 case -180 => 27 case -240 => 28 case -300 => 29 case -360 => 30
    case -420 => 31 case -480 => 32 case -570 => 33 case -600 => 34
    case _ => 0
  }

  lemma EasternRowsPickEarlier(j: nat)
    requires j < 20
    ensures PickedRow(RowMinutes(ROWS[j])) <= j && (PickedRow(RowMinutes(ROWS[j])) == 0 ==> j == 0)
  {
  }

  lemma WesternRowsPickEarlier(j: nat)
    requires 20 <= j < |ROWS|
    ensures 0 < PickedRow(RowMinutes(ROWS[j])) <= j
  {
  }

  lemma FarEasternPickHasMinutes(minutes: int)
    requires minutes >= 500
    ensures |ROWS| == 36
    ensures RowMinutes(ROWS[PickedRow(minutes)]) == minutes || PickedRow(minutes) == 0
  {
  }

  lemma EasternPickHasMinutes(minutes: int)
    requires 300 <= minutes < 500
    ensures |ROWS| == 36
    ensures RowMinutes(ROWS[PickedRow(minutes)]) == minutes || PickedRow(minutes) == 0
  {
  }

  lemma MiddlePickHasMinutes(minutes: int)
    requires -180 <= minutes < 300
    ensures |ROWS| == 36
    ensures RowMinutes(ROWS[PickedRow(minutes)]) == minutes || PickedRow(minutes) == 0
  {
  }

  lemma WesternPickHasMinutes(minutes: int)
    requires minutes < -180
    ensures |ROWS| == 36
    ensures RowMinutes(ROWS[PickedRow(minutes)]) == minutes || PickedRow(minutes) == 0
  {
  }

  lemma RowMatches(row: Row, offset: int)
    requires InRange(row)
    ensures FormatUTCOffset(row.hours, row.minutes) == Describe(offset) <==> RowMinutes(row) == SignedMinutes(offset)
  {
    HoursAndMinutes(offset);
    FormatIsInjective(row.hours, row.minutes, OffsetHours(offset), OffsetMinutes(offset));
    assert Minutes(offset) == 60 * (Minutes(offset) / 60) + Minutes(offset) % 60;
  }

  lemma PicksRow(rows: seq<Row>, k: nat, offset: int)
    requires k < |rows| && forall j :: 0 <= j < |rows| ==> InRange(rows[j])
    requires forall j :: 0 <= j < k ==> RowMinutes(rows[j]) != SignedMinutes(offset)
    requires RowMinutes(rows[k]) == SignedMinutes(offset) ||
      (k == 0 && forall j :: 0 <= j < |rows| ==> RowMinutes(rows[j]) != SignedMinutes(offset))
    ensures PickTimeZoneFromOffset(Written(rows), offset) == Written(rows)[k]
  {
    var zones := Written(rows);
    forall j | 0 <= j < |rows|
      ensures zones[j].offset == Describe(offset) <==> RowMinutes(rows[j]) == SignedMinutes(offset)
    {
      RowMatches(rows[j], offset);
    }
    PickIsFirstMatch(zones, offset, k);
  }

  /** For every integer offset, the zone of the table that is picked. */
  lemma EveryPick(offset: int)
    ensures |ROWS| == 36
    ensures PickTimeZoneFromOffset(Written(ROWS), offset) == Written(ROWS)[PickedRow(SignedMinutes(offset))]
  {
    var s := SignedMinutes(offset);
    var k := PickedRow(s);
    if s >= 500 { FarEasternPickHasMinutes(s); } else if s >= 300 { EasternPickHasMinutes(s); }
    if s < -180 { WesternPickHasMinutes(s); } else if s < 300 { MiddlePickHasMinutes(s); }
    forall j | 0 <= j < |ROWS|
      ensures InRange(ROWS[j]) && (RowMinutes(ROWS[j]) == s ==> k <= j && (k == 0 ==> j == 0))
    {
      RowsAreInRange(j);
      if j < 20 { EasternRowsPickEarlier(j); } else { WesternRowsPickEarlier(j); }
    }
    PicksRow(ROWS, k, offset);
  }
}
