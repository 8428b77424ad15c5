/**
 Timestamps printed and parsed with Go's `time.RFC3339`, as the repositories store them:
 whole seconds in UTC (section 5.6 of RFC 3339), compared by SQLite as text.
 */
module Rfc3339 {
  import opened Calendar
  import opened Options
  import opened Text

  // ---------------------------------------------------------------- printing

  function Digit(n: int): char
    requires 0 <= n < 10
  {
    ['0', '1', '2', '3', '4', '5', '6', '7', '8', '9'][n]
  }

  /** Decimal digits, padded with zeros on the left to at least `width`. */
  function Decimal(n: nat, width: nat): string
    decreases n, width
  {
    if n < 10 && width <= 1 then [Digit(n)]
    else Decimal(n / 10, if width > 0 then width - 1 else 0) + [Digit(n % 10)]
  }

  function YearText(y: int): string {
    if y < 0 then "-" + Decimal(-y, 4) else Decimal(y, 4)
  }

  function ClockText(c: Civil, zone: string): string
    requires c.Valid()
  {
    Decimal(c.hour, 2) + (":" + (Decimal(c.minute, 2) + (":" + (Decimal(c.second, 2) + zone))))
  }

  function DateText(c: Civil, rest: string): string
    requires c.Valid()
  {
    YearText(c.year) + ("-" + (Decimal(c.month, 2) + ("-" + (Decimal(c.day, 2) + rest))))
  }

  function CivilText(c: Civil, zone: string): string
    requires c.Valid()
  {
    DateText(c, "T" + ClockText(c, zone))
  }

  /** `t.UTC().Format(time.RFC3339)` */
  function Format(t: int): string { CivilText(CivilOf(t), "Z") }

  /** 10000-01-01T00:00:00Z, in seconds since 0000-01-01T00:00:00Z. */
  const YEAR_10000 := 3_652_425 * DAY

  /** The year has the four digits that the format of section 5.6 provides for. */
  predicate FourDigitYear(t: int) { 0 <= t < YEAR_10000 }

  lemma YearBelow(y: int, day: int, z: int)
    requires DaysBeforeYear(y) <= day < DaysBeforeYear(y + 1)
    ensures y < z <==> day < DaysBeforeYear(z)
  {
    if y < z {
      YearsOrdered(y + 1, z);
    } else {
      YearsOrdered(z, y);
    }
  }

  lemma DayInYear(c: Civil, day: int)
    requires c.Valid() && day == DayNumber(c.year, c.month, c.day)
    ensures DaysBeforeYear(c.year) <= day < DaysBeforeYear(c.year + 1)
  {
    NextYear(c.year);
    MonthsFillYear(c.year);
    if c.month > 1 {
      MonthsGrow(c.year, 1, c.month);
    }
    MonthsGrow(c.year, c.month, 13);
  }

  /** The calendar year of an instant has four digits exactly in that range. */
  lemma FourDigitYearExactly(t: int, c: Civil)
    requires c == CivilOf(t)
    ensures FourDigitYear(t) <==> 0 <= c.year <= 9999
  {
    var day := DayNumber(c.year, c.month, c.day);
    DayInYear(c, day);
    YearBelow(c.year, day, 0);
    YearBelow(c.year, day, 10000);
    assert DaysBeforeYear(0) == 0 && DaysBeforeYear(10000) == 3_652_425;
    assert day * DAY <= t < day * DAY + DAY;
  }

  // ---------------------------------------------------------------- text order

  /** SQLite's binary collation: shorter first among strings with a common prefix. */
  predicate Less(a: string, b: string) {
    b != [] && (a == [] || a[0] < b[0] || (a[0] == b[0] && Less(a[1..], b[1..])))
  }

  lemma {:induction false} LessConcat(a: string, b: string, x: string, y: string)
    requires |a| == |b|
    ensures Less(a + x, b + y) <==> Less(a, b) || (a == b && Less(x, y))
  {
    if a == [] {
      assert a + x == x && b + y == y;
    } else {
      LessConcat(a[1..], b[1..], x, y);
      assert (a + x)[1..] == a[1..] + x && (b + y)[1..] == b[1..] + y;
      assert a == [a[0]] + a[1..] && b == [b[0]] + b[1..];
    }
  }

  function Pow10(w: nat): nat { if w == 0 then 1 else 10 * Pow10(w - 1) }

  lemma DigitOrder(x: int, y: int)
    requires 0 <= x < 10 && 0 <= y < 10
    ensures Less([Digit(x)], [Digit(y)]) <==> x < y
    ensures Digit(x) == Digit(y) <==> x == y
  {
    assert Less([Digit(x)], [Digit(y)]) <==> Digit(x) < Digit(y);
  }

  lemma TensOrder(n: nat, m: nat)
    ensures n < m <==> n / 10 < m / 10 || (n / 10 == m / 10 && n % 10 < m % 10)
  {
  }

  /** Numbers of one width are ordered as texts and determined by them. */
  lemma {:induction false} DecimalOrder(n: nat, m: nat, w: nat)
    requires w > 0 && n < Pow10(w) && m < Pow10(w)
    ensures |Decimal(n, w)| == |Decimal(m, w)| == w
    ensures Less(Decimal(n, w), Decimal(m, w)) <==> n < m
    ensures Decimal(n, w) == Decimal(m, w) <==> n == m
    decreases w
  {
    if w == 1 {
      DigitOrder(n, m);
    } else {
      DecimalOrder(n / 10, m / 10, w - 1);
      var a, b := Decimal(n / 10, w - 1), Decimal(m / 10, w - 1);
      var x, y := [Digit(n % 10)], [Digit(m % 10)];
      LessConcat(a, b, x, y);
      DigitOrder(n % 10, m % 10);
      TensOrder(n, m);
      assert (a + x)[..w - 1] == a && (b + y)[..w - 1] == b;
      assert (a + x)[w - 1] == x[0] && (b + y)[w - 1] == y[0];
    }
  }

  /** One field of fixed width in front of the rest of the text. */
  lemma FieldOrder(n: nat, m: nat, w: nat, x: string, y: string)
    requires w > 0 && n < Pow10(w) && m < Pow10(w)
    ensures Less(Decimal(n, w) + x, Decimal(m, w) + y) <==> n < m || (n == m && Less(x, y))
  {
    DecimalOrder(n, m, w);
    LessConcat(Decimal(n, w), Decimal(m, w), x, y);
  }

  lemma SeparatorOrder(s: string, x: string, y: string)
    ensures Less(s + x, s + y) <==> Less(x, y)
  {
    LessConcat(s, s, x, y);
    NotLessItself(s);
  }

  lemma {:induction false} NotLessItself(s: string)
    ensures !Less(s, s)
  {
    if s != [] {
      NotLessItself(s[1..]);
    }
  }

  lemma ClockOrder(a: Civil, b: Civil)
    requires a.Valid() && b.Valid()
    ensures Less(ClockText(a, "Z"), ClockText(b, "Z")) <==>
            a.hour < b.hour || (a.hour == b.hour && (a.minute < b.minute || (a.minute == b.minute && a.second < b.second)))
  {
    assert Pow10(2) == 100;
    var s, s' := Decimal(a.second, 2) + "Z", Decimal(b.second, 2) + "Z";
    FieldOrder(a.second, b.second, 2, "Z", "Z");
    NotLessItself("Z");
    SeparatorOrder(":", s, s');
    var m, m' := Decimal(a.minute, 2) + (":" + s), Decimal(b.minute, 2) + (":" + s');
    FieldOrder(a.minute, b.minute, 2, ":" + s, ":" + s');
    SeparatorOrder(":", m, m');
    FieldOrder(a.hour, b.hour, 2, ":" + m, ":" + m');
  }

  lemma CivilOrder(a: Civil, b: Civil)
    requires a.Valid() && b.Valid() && 0 <= a.year <= 9999 && 0 <= b.year <= 9999
    ensures Less(CivilText(a, "Z"), CivilText(b, "Z")) <==> Before(a, b)
  {
    assert Pow10(2) == 100 && Pow10(4) == 10000;
    ClockOrder(a, b);
    SeparatorOrder("T", ClockText(a, "Z"), ClockText(b, "Z"));
    var d, d' := Decimal(a.day, 2) + ("T" + ClockText(a, "Z")), Decimal(b.day, 2) + ("T" + ClockText(b, "Z"));
    FieldOrder(a.day, b.day, 2, "T" + ClockText(a, "Z"), "T" + ClockText(b, "Z"));
    SeparatorOrder("-", d, d');
    var m, m' := Decimal(a.month, 2) + ("-" + d), Decimal(b.month, 2) + ("-" + d');
    FieldOrder(a.month, b.month, 2, "-" + d, "-" + d');
    SeparatorOrder("-", m, m');
    FieldOrder(a.year, b.year, 4, "-" + m, "-" + m');
  }

  /** Comparing two printed timestamps as text compares the instants (section 5.1 of RFC 3339). */
  lemma TextOrder(t: int, u: int)
    requires FourDigitYear(t) && FourDigitYear(u)
    ensures Less(Format(t), Format(u)) <==> t < u
  {
    FourDigitYearExactly(t, CivilOf(t));
    FourDigitYearExactly(u, CivilOf(u));
    CivilOrder(CivilOf(t), CivilOf(u));
    BeforeIsEarlier(CivilOf(t), CivilOf(u));
  }

  // ---------------------------------------------------------------- parsing

  function DigitValue(c: char): (n: int)
    requires IsDigit(c)
    ensures 0 <= n < 10
  {
    c as int - '0' as int
  }

  /** Go's `getnum`: two digits, or a single one unless `fixed`. */
  function GetNum(s: string, fixed: bool): Option<(int, string)> {
    if s == [] || !IsDigit(s[0]) then None
    else if |s| == 1 || !IsDigit(s[1]) then
      (if fixed then None else Some((DigitValue(s[0]), s[1..])))
    else Some((10 * DigitValue(s[0]) + DigitValue(s[1]), s[2..]))
  }

  function Skip(s: string, c: char): Option<string> {
    if s != [] && s[0] == c then Some(s[1..]) else None
  }

  function CutSpace(s: string): string {
    if s != [] && s[0] == ' ' then CutSpace(s[1..]) else s
  }

  /** A blank of the layout matches one or more blanks, or the end of the value. */
  function SkipBlanks(s: string): Option<string> {
    if s != [] && s[0] != ' ' then None else Some(CutSpace(s))
  }

  function GetYear(s: string): Option<(int, string)> {
    if |s| < 4 || !(IsDigit(s[0]) && IsDigit(s[1]) && IsDigit(s[2]) && IsDigit(s[3])) then None
    else Some((1000 * DigitValue(s[0]) + 100 * DigitValue(s[1]) + 10 * DigitValue(s[2]) + DigitValue(s[3]), s[4..]))
  }

  /** A separator and then two digits. */
  function GetField(s: string, separator: char): Option<(int, string)> {
    var rest := Skip(s, separator);
    if rest.None? then None else GetNum(rest.value, true)
  }

  /** `2006-01-02` */
  function GetDate(s: string): Option<(Civil, string)> {
    var year := GetYear(s);
    if year.None? then None else
    var month := GetField(year.value.1, '-');
    if month.None? || !(1 <= month.value.0 <= 12) then None else
    var day := GetField(month.value.1, '-');
    if day.None? then None
    else Some((Civil(year.value.0, month.value.0, day.value.0, 0, 0, 0), day.value.1))
  }

  /** `15:04`; the hour may have one digit. */
  function GetHourMinute(s: string, c: Civil): Option<(Civil, string)> {
    var hour := GetNum(s, false);
    if hour.None? || hour.value.0 >= 24 then None else
    var minute := GetField(hour.value.1, ':');
    if minute.None? || minute.value.0 >= 60 then None
    else Some((c.(hour := hour.value.0, minute := minute.value.0), minute.value.1))
  }

  function CutDigits(s: string): string {
    if s != [] && IsDigit(s[0]) then CutDigits(s[1..]) else s
  }

  /** `:05`, and a fraction that the layout does not ask for; it is below one second. */
  function GetSecond(s: string, c: Civil): Option<(Civil, string)> {
    var second := GetField(s, ':');
    if second.None? || second.value.0 >= 60 then None else
    var rest := second.value.1;
    var fraction := |rest| >= 2 && (rest[0] == '.' || rest[0] == ',') && IsDigit(rest[1]);
    Some((c.(second := second.value.0), if fraction then CutDigits(rest[1..]) else rest))
  }

  /** `Z07:00`: the offset in seconds; hours up to 24 and minutes up to 60 are let through. */
  function GetZone(s: string): Option<(int, string)> {
    if s != [] && s[0] == 'Z' then Some((0, s[1..]))
    else if |s| < 6 || s[3] != ':' || (s[0] != '+' && s[0] != '-') then None
    else
      var hour, minute := GetNum(s[1..3], true), GetNum(s[4..6], true);
      if hour.None? || minute.None? || hour.value.0 > 24 || minute.value.0 > 60 then None
      else
        var offset := (hour.value.0 * 60 + minute.value.0) * 60;
        Some((if s[0] == '-' then -offset else offset, s[6..]))
  }

  datatype Layout = RFC3339 | DateMinute | DateSecond | DateOnly

  /** Accepted if nothing is left over and the day exists in its month. */
  function Whole(c: Civil, offset: int, rest: string): Option<(Civil, int)> {
    if rest != [] || !c.Valid() then None else Some((c, offset))
  }

  /** `15:04:05` */
  function GetTime(s: string, c: Civil): Option<(Civil, string)> {
    var hm := GetHourMinute(s, c);
    if hm.None? then None else GetSecond(hm.value.1, hm.value.0)
  }

  /** What follows the date of each layout: the fields and the zone's offset. */
  function ParseRest(layout: Layout, s: string, c: Civil): (r: Option<(Civil, int)>)
    ensures r.Some? ==> r.value.0.Valid()
  {
    match layout
    case DateOnly => Whole(c, 0, s)
    case DateMinute =>
      var t := Skip(s, 'T');
      if t.None? then None else
      var hm := GetHourMinute(t.value, c);
      if hm.None? then None else Whole(hm.value.0, 0, hm.value.1)
    case DateSecond =>
      var t := SkipBlanks(s);
      if t.None? then None else
      var time := GetTime(t.value, c);
      if time.None? then None else Whole(time.value.0, 0, time.value.1)
    case RFC3339 =>
      var t := Skip(s, 'T');
      if t.None? then None else
      var time := GetTime(t.value, c);
      if time.None? then None else
      var zone := GetZone(time.value.1);
      if zone.None? then None else Whole(time.value.0, zone.value.0, zone.value.1)
  }

  function ParseFields(layout: Layout, value: string): (r: Option<(Civil, int)>)
    ensures r.Some? ==> r.value.0.Valid()
  {
    var date := GetDate(value);
    if date.None? then None else ParseRest(layout, date.value.1, date.value.0)
  }

  /** `time.Parse(layout, value)`, as the whole second its result lies in. */
  function Parse(layout: Layout, value: string): Option<int> {
    var fields := ParseFields(layout, value);
    if fields.None? then None else Some(Seconds(fields.value.0) - fields.value.1)
  }

  lemma DigitRoundTrip(n: int)
    requires 0 <= n < 10
    ensures IsDigit(Digit(n)) && DigitValue(Digit(n)) == n
  {
  }

  lemma TwoDigits(n: nat)
    requires n < 100
    ensures Decimal(n, 2) == [Digit(n / 10), Digit(n % 10)]
  {
  }

  lemma GetNumRoundTrip(n: nat, rest: string, fixed: bool)
    requires n < 100
    ensures GetNum(Decimal(n, 2) + rest, fixed) == Some((n, rest))
  {
    TwoDigits(n);
    DigitRoundTrip(n / 10);
    DigitRoundTrip(n % 10);
    var s := Decimal(n, 2) + rest;
    assert s[0] == Digit(n / 10) && s[1] == Digit(n % 10) && s[2..] == rest;
  }

  lemma GetFieldRoundTrip(n: nat, separator: char, rest: string)
    requires n < 100
    ensures GetField([separator] + (Decimal(n, 2) + rest), separator) == Some((n, rest))
  {
    GetNumRoundTrip(n, rest, true);
    assert ([separator] + (Decimal(n, 2) + rest))[1..] == Decimal(n, 2) + rest;
  }

  lemma Split10(n: nat, w: nat)
    requires w > 1
    ensures Decimal(n, w) == Decimal(n / 10, w - 1) + [Digit(n % 10)]
  {
  }

  lemma YearDigits(n: nat, a: nat, b: nat)
    requires n <= 9999 && a == n / 10 && b == a / 10
    ensures b / 10 < 10 && n == 1000 * (b / 10) + 100 * (b % 10) + 10 * (a % 10) + n % 10
    ensures Decimal(n, 4) == [Digit(b / 10), Digit(b % 10), Digit(a % 10), Digit(n % 10)]
  {
    Split10(n, 4);
    Split10(a, 3);
    TwoDigits(b);
  }

  lemma GetYearDigits(p: int, q: int, r: int, u: int, rest: string)
    requires 0 <= p < 10 && 0 <= q < 10 && 0 <= r < 10 && 0 <= u < 10
    ensures GetYear([Digit(p), Digit(q), Digit(r), Digit(u)] + rest) == Some((1000 * p + 100 * q + 10 * r + u, rest))
  {
    DigitRoundTrip(p);
    DigitRoundTrip(q);
    DigitRoundTrip(r);
    DigitRoundTrip(u);
    assert ([Digit(p), Digit(q), Digit(r), Digit(u)] + rest)[4..] == rest;
  }

  lemma GetYearRoundTrip(n: nat, rest: string)
    requires n <= 9999
    ensures GetYear(Decimal(n, 4) + rest) == Some((n, rest))
  {
    var a := n / 10;
    var b := a / 10;
    YearDigits(n, a, b);
    GetYearDigits(b / 10, b % 10, a % 10, n % 10, rest);
  }

  lemma GetDateRoundTrip(c: Civil, rest: string)
    requires c.Valid() && 0 <= c.year <= 9999
    ensures GetDate(DateText(c, rest)) == Some((Civil(c.year, c.month, c.day, 0, 0, 0), rest))
  {
    GetYearRoundTrip(c.year, "-" + (Decimal(c.month, 2) + ("-" + (Decimal(c.day, 2) + rest))));
    GetFieldRoundTrip(c.month, '-', "-" + (Decimal(c.day, 2) + rest));
    GetFieldRoundTrip(c.day, '-', rest);
  }

  lemma GetClockRoundTrip(c: Civil, date: Civil, zone: string)
    requires c.Valid() && date == Civil(c.year, c.month, c.day, 0, 0, 0)
    requires zone != [] ==> zone[0] != '.' && zone[0] != ','
    ensures GetTime(ClockText(c, zone), date) == Some((c, zone))
  {
    var s := ":" + (Decimal(c.second, 2) + zone);
    GetNumRoundTrip(c.hour, ":" + (Decimal(c.minute, 2) + s), false);
    GetFieldRoundTrip(c.minute, ':', s);
    GetFieldRoundTrip(c.second, ':', zone);
  }

  lemma GetZoneRoundTrip()
    ensures GetZone("Z") == Some((0, []))
  {
    assert "Z"[1..] == [];
  }

  lemma SkipFirst(c: char, s: string)
    ensures Skip([c] + s, c) == Some(s)
  {
    assert ([c] + s)[1..] == s;
  }

  lemma RestRoundTrip(c: Civil, date: Civil, zone: string, offset: int)
    requires c.Valid() && date == Civil(c.year, c.month, c.day, 0, 0, 0)
    requires zone != [] && zone[0] != '.' && zone[0] != ',' && GetZone(zone) == Some((offset, []))
    ensures ParseRest(RFC3339, "T" + ClockText(c, zone), date) == Some((c, offset))
  {
    var clock := ClockText(c, zone);
    SkipFirst('T', clock);
    assert "T" == ['T'];
    GetClockRoundTrip(c, date, zone);
  }

  /** Fields printed with a zone are read back, with the zone's offset. */
  lemma FieldsRoundTrip(c: Civil, zone: string, offset: int)
    requires c.Valid() && 0 <= c.year <= 9999
    requires zone != [] && zone[0] != '.' && zone[0] != ',' && GetZone(zone) == Some((offset, []))
    ensures ParseFields(RFC3339, CivilText(c, zone)) == Some((c, offset))
  {
    GetDateRoundTrip(c, "T" + ClockText(c, zone));
    RestRoundTrip(c, Civil(c.year, c.month, c.day, 0, 0, 0), zone, offset);
  }

  lemma ParseFrom(layout: Layout, value: string, c: Civil, offset: int)
    requires c.Valid() && ParseFields(layout, value) == Some((c, offset))
    ensures Parse(layout, value) == Some(Seconds(c) - offset)
  {
  }

  lemma FormatFields(t: int)
    requires FourDigitYear(t)
    ensures ParseFields(RFC3339, Format(t)) == Some((CivilOf(t), 0))
  {
    FourDigitYearExactly(t, CivilOf(t));
    GetZoneRoundTrip();
    FieldsRoundTrip(CivilOf(t), "Z", 0);
  }

  lemma ParseInstant(text: string, t: int)
    requires ParseFields(RFC3339, text) == Some((CivilOf(t), 0))
    ensures Parse(RFC3339, text) == Some(t)
  {
    ParseFrom(RFC3339, text, CivilOf(t), 0);
  }

  /** A printed timestamp is read back as the instant it was printed from. */
  lemma FormatRoundTrip(t: int)
    requires FourDigitYear(t)
    ensures Parse(RFC3339, Format(t)) == Some(t)
  {
    FormatFields(t);
    ParseInstant(Format(t), t);
  }

  lemma {:induction false} DecimalLong(n: nat, w: nat)
    requires n >= Pow10(w)
    ensures |Decimal(n, w)| > w && forall i :: 0 <= i < |Decimal(n, w)| ==> IsDigit(Decimal(n, w)[i])
  {
    DecimalDigits(n, w);
    if w > 0 {
      assert n / 10 >= Pow10(w - 1);
      DecimalLong(n / 10, w - 1);
    }
  }

  lemma {:induction false} DecimalDigits(n: nat, w: nat)
    ensures |Decimal(n, w)| > 0 && forall i :: 0 <= i < |Decimal(n, w)| ==> IsDigit(Decimal(n, w)[i])
    decreases n, w
  {
    DigitRoundTrip(n % 10);
    if n >= 10 || w > 1 {
      DecimalDigits(n / 10, if w > 0 then w - 1 else 0);
    }
  }

  /** A timestamp printed with any other year is not read back by any of the layouts. */
  lemma OtherYearsUnreadable(t: int, layout: Layout)
    requires !FourDigitYear(t)
    ensures Parse(layout, Format(t)).None?
  {
    var c := CivilOf(t);
    FourDigitYearExactly(t, c);
    var s := Format(t);
    if c.year < 0 {
      assert s[0] == '-';
    } else {
      assert Pow10(4) == 10000;
      DecimalLong(c.year, 4);
      assert IsDigit(s[4]);
      assert s[4..][0] == s[4];
    }
  }
}
