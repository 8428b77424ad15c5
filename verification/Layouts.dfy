/**
 The four layouts of `normalizeExpiry` (internal/service/access.go): which texts each of
 them reads, and as which instant.
 */
module Layouts {
  import opened Calendar
  import opened Expiry
  import opened Options
  import opened Rfc3339
  import opened Text

  // ---------------------------------------------------------------- what is read

  function HourMinuteText(c: Civil, rest: string): string
    requires c.Valid()
  {
    Decimal(c.hour, 2) + (":" + (Decimal(c.minute, 2) + rest))
  }

  lemma HourMinuteRoundTrip(c: Civil, date: Civil, rest: string)
    requires c.Valid() && date == Civil(c.year, c.month, c.day, 0, 0, 0)
    ensures GetHourMinute(HourMinuteText(c, rest), date) == Some((c.(second := 0), rest))
  {
    GetNumRoundTrip(c.hour, ":" + (Decimal(c.minute, 2) + rest), false);
    GetFieldRoundTrip(c.minute, ':', rest);
  }

  lemma MinuteRest(c: Civil, date: Civil, rest: string)
    requires c.Valid() && c.second == 0 && date == Civil(c.year, c.month, c.day, 0, 0, 0)
    requires rest == "T" + HourMinuteText(c, "")
    ensures ParseRest(DateMinute, rest, date) == Some((c, 0)) && ParseRest(RFC3339, rest, date).None?
  {
    assert rest == ['T'] + HourMinuteText(c, "");
    SkipFirst('T', HourMinuteText(c, ""));
    HourMinuteRoundTrip(c, date, "");
  }

  lemma SecondRest(c: Civil, date: Civil, rest: string)
    requires c.Valid() && date == Civil(c.year, c.month, c.day, 0, 0, 0)
    requires rest == " " + ClockText(c, "")
    ensures ParseRest(DateSecond, rest, date) == Some((c, 0))
    ensures ParseRest(RFC3339, rest, date).None? && ParseRest(DateMinute, rest, date).None?
  {
    var clock := ClockText(c, "");
    GetClockRoundTrip(c, date, "");
    TwoDigits(c.hour);
    DigitRoundTrip(c.hour / 10);
    assert rest[0] == ' ' && rest[1..] == clock && clock[0] != ' ';
    assert CutSpace(rest) == clock;
  }

  lemma FieldsFrom(layout: Layout, value: string, c: Civil, rest: string)
    requires GetDate(value) == Some((c, rest))
    ensures ParseFields(layout, value) == ParseRest(layout, rest, c)
  {
  }

  /** `YYYY-MM-DDThh:mm`, as the administrators' form submits it. */
  lemma MinuteFields(c: Civil, value: string)
    requires c.Valid() && 0 <= c.year <= 9999 && c.second == 0
    requires value == DateText(c, "T" + HourMinuteText(c, ""))
    ensures ParseFields(DateMinute, value) == Some((c, 0)) && ParseFields(RFC3339, value).None?
  {
    var date, rest := Civil(c.year, c.month, c.day, 0, 0, 0), "T" + HourMinuteText(c, "");
    GetDateRoundTrip(c, rest);
    FieldsFrom(DateMinute, value, date, rest);
    FieldsFrom(RFC3339, value, date, rest);
    MinuteRest(c, date, rest);
  }

  /** `YYYY-MM-DD hh:mm:ss` */
  lemma SecondFields(c: Civil, value: string)
    requires c.Valid() && 0 <= c.year <= 9999 && value == DateText(c, " " + ClockText(c, ""))
    ensures ParseFields(DateSecond, value) == Some((c, 0))
    ensures ParseFields(RFC3339, value).None? && ParseFields(DateMinute, value).None?
  {
    var date, rest := Civil(c.year, c.month, c.day, 0, 0, 0), " " + ClockText(c, "");
    GetDateRoundTrip(c, rest);
    FieldsFrom(DateSecond, value, date, rest);
    FieldsFrom(RFC3339, value, date, rest);
    FieldsFrom(DateMinute, value, date, rest);
    SecondRest(c, date, rest);
  }

  lemma FirstLayout(value: string, t: int)
    requires Parse(RFC3339, value) == Some(t)
    ensures FirstMeant(value, 0) == Some(t)
  {
    assert Meant(LAYOUTS[0], value) == Some(t);
  }

  lemma SecondLayout(value: string, t: int)
    requires Parse(RFC3339, value).None? && Parse(DateMinute, value) == Some(t)
    ensures FirstMeant(value, 0) == Some(t)
  {
    assert Meant(LAYOUTS[1], value) == Some(t);
    assert FirstMeant(value, 0) == FirstMeant(value, 1);
  }

  lemma ThirdLayout(value: string, t: int)
    requires Parse(RFC3339, value).None? && Parse(DateMinute, value).None? && Parse(DateSecond, value) == Some(t)
    ensures FirstMeant(value, 0) == Some(t)
  {
    assert Meant(LAYOUTS[2], value) == Some(t);
    assert FirstMeant(value, 0) == FirstMeant(value, 1) == FirstMeant(value, 2);
  }

  lemma Printed(c: Civil)
    requires c.Valid()
    ensures Format(Seconds(c)) == CivilText(c, "Z")
  {
    CivilOfSeconds(c);
  }

  lemma NormalizedTo(layout: Layout, value: string, t: int)
    requires ParseFields(layout, value).Some? && FirstMeant(value, 0) == Some(t)
    ensures Normalize(value) == Expires(Format(t))
  {
    assert GetDate(value).Some?;
    assert value != "";
  }

  lemma FirstNormalized(value: string, c: Civil, offset: int)
    requires c.Valid() && ParseFields(RFC3339, value) == Some((c, offset))
    ensures Normalize(value) == Expires(Format(Seconds(c) - offset))
  {
    ParseFrom(RFC3339, value, c, offset);
    FirstLayout(value, Seconds(c) - offset);
    NormalizedTo(RFC3339, value, Seconds(c) - offset);
  }

  lemma Unread(layout: Layout, value: string)
    requires ParseFields(layout, value).None?
    ensures Parse(layout, value).None?
  {
  }

  lemma SecondNormalizedTo(value: string, c: Civil)
    requires c.Valid() && ParseFields(RFC3339, value).None? && ParseFields(DateMinute, value) == Some((c, 0))
    ensures Normalize(value) == Expires(Format(Seconds(c)))
  {
    Unread(RFC3339, value);
    ParseFrom(DateMinute, value, c, 0);
    SecondLayout(value, Seconds(c));
    NormalizedTo(DateMinute, value, Seconds(c));
  }

  lemma ThirdNormalizedTo(value: string, c: Civil)
    requires c.Valid() && ParseFields(RFC3339, value).None? && ParseFields(DateMinute, value).None?
    requires ParseFields(DateSecond, value) == Some((c, 0))
    ensures Normalize(value) == Expires(Format(Seconds(c)))
  {
    Unread(RFC3339, value);
    Unread(DateMinute, value);
    ParseFrom(DateSecond, value, c, 0);
    ThirdLayout(value, Seconds(c));
    NormalizedTo(DateSecond, value, Seconds(c));
  }

  /** A date with hours and minutes is taken as UTC, at the start of the minute. */
  lemma MinuteNormalized(c: Civil, value: string)
    requires c.Valid() && 0 <= c.year <= 9999 && c.second == 0
    requires value == DateText(c, "T" + HourMinuteText(c, ""))
    ensures Normalize(value) == Expires(CivilText(c, "Z"))
  {
    MinuteFields(c, value);
    SecondNormalizedTo(value, c);
    Printed(c);
  }

  /** A date with a blank and a time of day is taken as UTC. */
  lemma SecondNormalized(c: Civil, value: string)
    requires c.Valid() && 0 <= c.year <= 9999 && value == DateText(c, " " + ClockText(c, ""))
    ensures Normalize(value) == Expires(CivilText(c, "Z"))
  {
    SecondFields(c, value);
    ThirdNormalizedTo(value, c);
    Printed(c);
  }

  /** `+hh:mm` or `-hh:mm` */
  function ZoneText(sign: char, hour: nat, minute: nat): string {
    [sign] + (Decimal(hour, 2) + (":" + Decimal(minute, 2)))
  }

  lemma ZoneRoundTrip(sign: char, hour: nat, minute: nat)
    requires (sign == '+' || sign == '-') && hour <= 24 && minute <= 60
    ensures GetZone(ZoneText(sign, hour, minute))
         == Some(((if sign == '-' then -(hour * 3600 + minute * 60) else hour * 3600 + minute * 60), ""))
  {
    var s := ZoneText(sign, hour, minute);
    TwoDigits(hour);
    TwoDigits(minute);
    GetNumRoundTrip(hour, "", true);
    GetNumRoundTrip(minute, "", true);
    assert s[1..3] == Decimal(hour, 2) + "" && s[4..6] == Decimal(minute, 2) + "" && s[6..] == "";
  }

  lemma OffsetFields(c: Civil, sign: char, hour: nat, minute: nat, offset: int, value: string)
    requires c.Valid() && 0 <= c.year <= 9999 && (sign == '+' || sign == '-') && hour <= 24 && minute <= 60
    requires offset == if sign == '-' then -(hour * 3600 + minute * 60) else hour * 3600 + minute * 60
    requires value == CivilText(c, ZoneText(sign, hour, minute))
    ensures ParseFields(RFC3339, value) == Some((c, offset))
  {
    ZoneRoundTrip(sign, hour, minute);
    FieldsRoundTrip(c, ZoneText(sign, hour, minute), offset);
  }

  /** A timestamp with an offset is converted to UTC. */
  lemma OffsetNormalized(c: Civil, sign: char, hour: nat, minute: nat, offset: int, value: string)
    requires c.Valid() && 0 <= c.year <= 9999 && (sign == '+' || sign == '-') && hour <= 24 && minute <= 60
    requires offset == if sign == '-' then -(hour * 3600 + minute * 60) else hour * 3600 + minute * 60
    requires value == CivilText(c, ZoneText(sign, hour, minute))
    ensures Normalize(value) == Expires(Format(Seconds(c) - offset))
  {
    OffsetFields(c, sign, hour, minute, offset, value);
    FirstNormalized(value, c, offset);
  }

  // ---------------------------------------------------------------- nothing else is read

  lemma DigitOf(c: char)
    requires IsDigit(c)
    ensures Digit(DigitValue(c)) == c
  {
  }

  /** What `GetNum` read: two digits, or one when that is allowed. */
  predicate NumText(text: string, n: int, fixed: bool) {
    (0 <= n < 100 && text == Decimal(n, 2)) || (!fixed && 0 <= n < 10 && text == [Digit(n)])
  }

  lemma TensAndOnes(x: int, y: int, n: int)
    requires 0 <= x < 10 && 0 <= y < 10 && n == 10 * x + y
    ensures n / 10 == x && n % 10 == y
  {
  }

  lemma TwoDigitsOf(a: char, b: char, n: nat)
    requires IsDigit(a) && IsDigit(b) && n == 10 * DigitValue(a) + DigitValue(b)
    ensures Decimal(n, 2) == [a, b]
  {
    TensAndOnes(DigitValue(a), DigitValue(b), n);
    TwoDigits(n);
    DigitOf(a);
    DigitOf(b);
  }

  lemma NumShape(s: string, fixed: bool) returns (text: string)
    requires GetNum(s, fixed).Some?
    ensures s == text + GetNum(s, fixed).value.1 && NumText(text, GetNum(s, fixed).value.0, fixed)
  {
    var n := GetNum(s, fixed).value.0;
    DigitOf(s[0]);
    if |s| == 1 || !IsDigit(s[1]) {
      text := s[..1];
    } else {
      text := s[..2];
      TwoDigitsOf(s[0], s[1], n);
    }
  }

  lemma FieldShape(s: string, separator: char)
    requires GetField(s, separator).Some?
    ensures var (n, rest) := GetField(s, separator).value;
            0 <= n < 100 && s == [separator] + (Decimal(n, 2) + rest)
  {
    var text := NumShape(s[1..], true);
    assert s == [separator] + s[1..];
  }

  lemma YearShape(s: string)
    requires GetYear(s).Some?
    ensures var (n, rest) := GetYear(s).value; 0 <= n <= 9999 && s == Decimal(n, 4) + rest
  {
    var n := GetYear(s).value.0;
    DigitOf(s[0]);
    DigitOf(s[1]);
    DigitOf(s[2]);
    DigitOf(s[3]);
    YearDigits(n, n / 10, n / 10 / 10);
    FourDigits(DigitValue(s[0]), DigitValue(s[1]), DigitValue(s[2]), DigitValue(s[3]), n);
    assert s == [s[0], s[1], s[2], s[3]] + s[4..];
  }

  lemma FourDigits(p: int, q: int, r: int, u: int, n: int)
    requires 0 <= p < 10 && 0 <= q < 10 && 0 <= r < 10 && 0 <= u < 10 && n == 1000 * p + 100 * q + 10 * r + u
    ensures n % 10 == u && n / 10 % 10 == r && n / 10 / 10 % 10 == q && n / 10 / 10 / 10 == p
  {
    assert n / 10 == 100 * p + 10 * q + r;
    assert n / 10 / 10 == 10 * p + q;
  }

  /** The fields of a date as text, whether or not its month has that day. */
  function RawDate(c: Civil, rest: string): string
    requires 0 <= c.year && 0 <= c.month && 0 <= c.day
  {
    Decimal(c.year, 4) + ("-" + (Decimal(c.month, 2) + ("-" + (Decimal(c.day, 2) + rest))))
  }

  lemma DateShape(s: string)
    requires GetDate(s).Some?
    ensures var (c, rest) := GetDate(s).value;
            && 0 <= c.year <= 9999 && 0 <= c.month < 100 && 0 <= c.day < 100
            && c == Civil(c.year, c.month, c.day, 0, 0, 0) && s == RawDate(c, rest)
  {
    YearShape(s);
    var rest := GetYear(s).value.1;
    FieldShape(rest, '-');
    FieldShape(GetField(rest, '-').value.1, '-');
  }

  lemma HourMinuteShape(s: string, date: Civil) returns (hour: string)
    requires GetHourMinute(s, date).Some?
    ensures var (c, rest) := GetHourMinute(s, date).value;
            && NumText(hour, c.hour, false) && 0 <= c.minute < 100 && c == date.(hour := c.hour, minute := c.minute)
            && s == hour + (":" + (Decimal(c.minute, 2) + rest))
  {
    hour := NumShape(s, false);
    FieldShape(GetNum(s, false).value.1, ':');
  }

  /** Nothing, or a point or comma and at least one digit. */
  predicate Fraction(text: string) {
    text == "" || (|text| >= 2 && (text[0] == '.' || text[0] == ',') && forall i :: 1 <= i < |text| ==> IsDigit(text[i]))
  }

  lemma {:induction false} DigitsCut(s: string) returns (n: nat)
    ensures n <= |s| && CutDigits(s) == s[n..] && forall i :: 0 <= i < n ==> IsDigit(s[i])
    ensures s != [] && IsDigit(s[0]) ==> n > 0
  {
    n := 0;
    if s != [] && IsDigit(s[0]) {
      var m := DigitsCut(s[1..]);
      n := m + 1;
      assert s[1..][m..] == s[n..] && forall i :: 0 < i < n ==> s[i] == s[1..][i - 1];
    }
  }

  lemma SecondShape(s: string, date: Civil) returns (fraction: string)
    requires GetSecond(s, date).Some?
    ensures var (c, rest) := GetSecond(s, date).value;
            && Fraction(fraction) && 0 <= c.second < 100 && c == date.(second := c.second)
            && s == ":" + (Decimal(c.second, 2) + (fraction + rest))
  {
    FieldShape(s, ':');
    var rest := GetField(s, ':').value.1;
    fraction := "";
    if |rest| >= 2 && (rest[0] == '.' || rest[0] == ',') && IsDigit(rest[1]) {
      var n := DigitsCut(rest[1..]);
      fraction := rest[..n + 1];
      assert rest == fraction + rest[1..][n..];
      assert forall i :: 1 <= i < |fraction| ==> fraction[i] == rest[1..][i - 1];
    } else {
      assert rest == fraction + rest;
    }
  }

  /** `hh:mm:ss`, the hour with one or two digits and perhaps with a fraction. */
  ghost predicate TimeOfDay(text: string, c: Civil) {
    exists hour: string, fraction: string ::
      NumText(hour, c.hour, false) && Fraction(fraction) && 0 <= c.minute < 100 && 0 <= c.second < 100
      && text == hour + (":" + (Decimal(c.minute, 2) + (":" + (Decimal(c.second, 2) + fraction))))
  }

  lemma Regroup(hour: string, minute: string, second: string, fraction: string, rest: string)
    ensures hour + (":" + (minute + (":" + (second + (fraction + rest)))))
         == (hour + (":" + (minute + (":" + (second + fraction))))) + rest
  {
  }

  lemma TimeShape(s: string, date: Civil) returns (text: string)
    requires GetTime(s, date).Some?
    ensures var (c, rest) := GetTime(s, date).value;
            && s == text + rest && TimeOfDay(text, c)
            && c == date.(hour := c.hour, minute := c.minute, second := c.second)
  {
    var hour := HourMinuteShape(s, date);
    var hm := GetHourMinute(s, date).value;
    var fraction := SecondShape(hm.1, hm.0);
    var (c, rest) := GetSecond(hm.1, hm.0).value;
    text := hour + (":" + (Decimal(c.minute, 2) + (":" + (Decimal(c.second, 2) + fraction))));
    Regroup(hour, Decimal(c.minute, 2), Decimal(c.second, 2), fraction, rest);
  }

  /** `Z`, or a sign, up to 24 hours and up to 60 minutes. */
  ghost predicate ZoneOf(text: string, offset: int) {
    || (text == "Z" && offset == 0)
    || exists sign: char, hour: nat, minute: nat ::
         (sign == '+' || sign == '-') && hour <= 24 && minute <= 60 && text == ZoneText(sign, hour, minute)
         && offset == if sign == '-' then -(hour * 3600 + minute * 60) else hour * 3600 + minute * 60
  }

  lemma ZoneShape(s: string) returns (text: string)
    requires GetZone(s).Some?
    ensures var (offset, rest) := GetZone(s).value; s == text + rest && ZoneOf(text, offset)
  {
    if s[0] == 'Z' {
      text := s[..1];
    } else {
      text := s[..6];
      var hour := NumShape(s[1..3], true);
      var minute := NumShape(s[4..6], true);
      var h, m := GetNum(s[1..3], true).value.0, GetNum(s[4..6], true).value.0;
      assert s[1..3] == Decimal(h, 2) && s[4..6] == Decimal(m, 2) by {
        TwoDigits(h);
        TwoDigits(m);
      }
      assert text == [s[0]] + (s[1..3] + ([s[3]] + s[4..6]));
      assert text == ZoneText(s[0], h, m);
    }
  }

  predicate Blanks(text: string) { forall i :: 0 <= i < |text| ==> text[i] == ' ' }

  lemma {:induction false} SpaceCut(s: string) returns (n: nat)
    ensures n <= |s| && CutSpace(s) == s[n..] && forall i :: 0 <= i < n ==> s[i] == ' '
  {
    n := 0;
    if s != [] && s[0] == ' ' {
      var m := SpaceCut(s[1..]);
      n := m + 1;
      assert s[1..][m..] == s[n..] && forall i :: 0 < i < n ==> s[i] == s[1..][i - 1];
    }
  }

  /** What may follow the date in each layout. */
  ghost predicate Tail(layout: Layout, tail: string, c: Civil, offset: int) {
    match layout
    case DateOnly => tail == "" && c.hour == c.minute == c.second == 0 && offset == 0
    case DateMinute =>
      && c.second == 0 && offset == 0 && 0 <= c.minute
      && exists hour: string :: NumText(hour, c.hour, false) && tail == "T" + (hour + (":" + Decimal(c.minute, 2)))
    case DateSecond =>
      && offset == 0
      && exists blanks: string, time: string :: Blanks(blanks) && TimeOfDay(time, c) && tail == blanks + time
    case RFC3339 =>
      exists time: string, zone: string :: TimeOfDay(time, c) && ZoneOf(zone, offset) && tail == "T" + (time + zone)
  }

  lemma MinuteTail(s: string, date: Civil)
    requires date == Civil(date.year, date.month, date.day, 0, 0, 0) && ParseRest(DateMinute, s, date).Some?
    ensures var (c, offset) := ParseRest(DateMinute, s, date).value;
            Tail(DateMinute, s, c, offset) && c == date.(hour := c.hour, minute := c.minute, second := c.second)
  {
    var hour := HourMinuteShape(s[1..], date);
    var c := GetHourMinute(s[1..], date).value.0;
    assert Decimal(c.minute, 2) + "" == Decimal(c.minute, 2);
    assert s == "T" + s[1..];
  }

  lemma BlankTail(s: string, cut: string, n: nat, date: Civil)
    requires n <= |s| && cut == s[n..] && Blanks(s[..n]) && GetTime(cut, date).Some? && GetTime(cut, date).value.1 == ""
    ensures var c := GetTime(cut, date).value.0;
            Tail(DateSecond, s, c, 0) && c == date.(hour := c.hour, minute := c.minute, second := c.second)
  {
    var time := TimeShape(cut, date);
    assert cut == time by { assert time + "" == time; }
    assert s == s[..n] + time;
  }

  lemma SecondTail(s: string, date: Civil)
    requires ParseRest(DateSecond, s, date).Some?
    ensures var (c, offset) := ParseRest(DateSecond, s, date).value;
            Tail(DateSecond, s, c, offset) && c == date.(hour := c.hour, minute := c.minute, second := c.second)
  {
    var n := SpaceCut(s);
    BlankTail(s, s[n..], n, date);
  }

  lemma Rfc3339Tail(s: string, date: Civil)
    requires ParseRest(RFC3339, s, date).Some?
    ensures var (c, offset) := ParseRest(RFC3339, s, date).value;
            Tail(RFC3339, s, c, offset) && c == date.(hour := c.hour, minute := c.minute, second := c.second)
  {
    var time := TimeShape(s[1..], date);
    var zone := ZoneShape(GetTime(s[1..], date).value.1);
    assert zone + "" == zone;
    assert s == "T" + (time + zone);
  }

  /** Whatever a layout reads is a date that exists, followed by what the layout allows, and
      it is read as that moment: there is no other text that any of the four accepts. */
  lemma ReadOnlyInForm(layout: Layout, value: string, t: int) returns (c: Civil, offset: int, tail: string)
    requires Parse(layout, value) == Some(t)
    ensures c.Valid() && 0 <= c.year <= 9999 && t == Seconds(c) - offset
    ensures value == DateText(c, tail) && Tail(layout, tail, c, offset)
  {
    DateShape(value);
    var date := GetDate(value).value.0;
    tail := GetDate(value).value.1;
    FieldsFrom(layout, value, date, tail);
    c, offset := ParseFields(layout, value).value.0, ParseFields(layout, value).value.1;
    match layout {
      case DateOnly =>
      case DateMinute => MinuteTail(tail, date);
      case DateSecond => SecondTail(tail, date);
      case RFC3339 => Rfc3339Tail(tail, date);
    }
  }
}
