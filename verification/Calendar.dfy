/**
 The proleptic Gregorian calendar in UTC. An instant is a number of whole seconds since
 0000-01-01T00:00:00Z.
 */
module Calendar {
  const DAY := 86_400
  /** 1970-01-01T00:00:00Z, in seconds since 0000-01-01T00:00:00Z. */
  const UNIX_EPOCH := 719_528 * DAY

  datatype Civil = Civil(year: int, month: int, day: int, hour: int, minute: int, second: int) {
    predicate Valid() {
      && 1 <= month <= 12 && 1 <= day <= DaysIn(year, month)
      && 0 <= hour < 24 && 0 <= minute < 60 && 0 <= second < 60
    }
  }

  predicate IsLeap(y: int) { y % 4 == 0 && (y % 100 != 0 || y % 400 == 0) }

  function DaysBeforeYear(y: int): int { 365 * y + (y + 3) / 4 - (y + 99) / 100 + (y + 399) / 400 }

  function YearLength(y: int): int { if IsLeap(y) then 366 else 365 }

  function DaysIn(y: int, m: int): int {
    if m == 2 then (if IsLeap(y) then 29 else 28) else if m == 4 || m == 6 || m == 9 || m == 11 then 30 else 31
  }

  function DaysBeforeMonth(y: int, m: int): int
    requires 1 <= m <= 13
    decreases m
  {
    if m == 1 then 0 else DaysBeforeMonth(y, m - 1) + DaysIn(y, m - 1)
  }

  function DayNumber(y: int, m: int, d: int): int
    requires 1 <= m <= 12
  {
    DaysBeforeYear(y) + DaysBeforeMonth(y, m) + d - 1
  }

  function Seconds(c: Civil): int
    requires 1 <= c.month <= 12
  {
    DayNumber(c.year, c.month, c.day) * DAY + c.hour * 3600 + c.minute * 60 + c.second
  }

  lemma Next4(y: int)
    ensures (y + 4) / 4 == (y + 3) / 4 + if y % 4 == 0 then 1 else 0
  {
  }

  lemma Next100(y: int)
    ensures (y + 100) / 100 == (y + 99) / 100 + if y % 100 == 0 then 1 else 0
  {
  }

  lemma Next400(y: int)
    ensures (y + 400) / 400 == (y + 399) / 400 + if y % 400 == 0 then 1 else 0
  {
    var q, r := y / 400, y % 400;
    assert y + 400 == 400 * (q + 1) + r;
    if r == 0 {
      assert y + 399 == 400 * q + 399;
    } else {
      assert y + 399 == 400 * (q + 1) + (r - 1);
    }
  }

  lemma MultipleOf(q: int, d: int, y: int)
    requires (d == 4 || d == 100) && y == d * q
    ensures y % d == 0
  {
  }

  lemma Multiples(y: int)
    ensures y % 100 == 0 ==> y % 4 == 0
    ensures y % 400 == 0 ==> y % 100 == 0
  {
    if y % 100 == 0 {
      MultipleOf(25 * (y / 100), 4, y);
    }
    if y % 400 == 0 {
      MultipleOf(4 * (y / 400), 100, y);
    }
  }

  lemma NextYear(y: int)
    ensures DaysBeforeYear(y + 1) == DaysBeforeYear(y) + YearLength(y)
  {
    Next4(y);
    Next100(y);
    Next400(y);
    Multiples(y);
  }

  lemma {:induction false} YearsGrow(y: int, z: int)
    requires y < z
    ensures DaysBeforeYear(y) + YearLength(y) <= DaysBeforeYear(z)
    decreases z - y
  {
    NextYear(y);
    if y + 1 < z {
      YearsGrow(y + 1, z);
    }
  }

  lemma YearsOrdered(y: int, z: int)
    requires y <= z
    ensures DaysBeforeYear(y) <= DaysBeforeYear(z)
  {
    if y < z {
      YearsGrow(y, z);
    }
  }

  lemma {:induction false} MonthsGrow(y: int, m: int, n: int)
    requires 1 <= m < n <= 13
    ensures DaysBeforeMonth(y, m) + DaysIn(y, m) <= DaysBeforeMonth(y, n)
    decreases n
  {
    if m < n - 1 {
      MonthsGrow(y, m, n - 1);
    }
  }

  lemma MonthsFillYear(y: int)
    ensures DaysBeforeMonth(y, 13) == YearLength(y)
  {
    assert DaysBeforeMonth(y, 4) == DaysIn(y, 1) + DaysIn(y, 2) + DaysIn(y, 3);
    assert DaysBeforeMonth(y, 7) == DaysBeforeMonth(y, 4) + 91;
    assert DaysBeforeMonth(y, 10) == DaysBeforeMonth(y, 7) + 92;
    assert DaysBeforeMonth(y, 13) == DaysBeforeMonth(y, 10) + 92;
  }

  /** Fields compared from the year down. */
  predicate Before(a: Civil, b: Civil) {
    a.year < b.year || (a.year == b.year && (a.month < b.month || (a.month == b.month && (a.day < b.day
    || (a.day == b.day && (a.hour < b.hour || (a.hour == b.hour && (a.minute < b.minute
    || (a.minute == b.minute && a.second < b.second)))))))))
  }

  lemma DaysGrow(a: Civil, b: Civil)
    requires a.Valid() && b.Valid()
    requires a.year < b.year || (a.year == b.year && (a.month < b.month || (a.month == b.month && a.day < b.day)))
    ensures DayNumber(a.year, a.month, a.day) < DayNumber(b.year, b.month, b.day)
  {
    MonthsFillYear(a.year);
    MonthsGrow(a.year, a.month, 13);
    if a.year < b.year {
      YearsGrow(a.year, b.year);
      if b.month > 1 {
        MonthsGrow(b.year, 1, b.month);
      }
    } else if a.month < b.month {
      MonthsGrow(a.year, a.month, b.month);
    }
  }

  /** Field order is the order of instants. */
  lemma BeforeIsEarlier(a: Civil, b: Civil)
    requires a.Valid() && b.Valid()
    ensures Before(a, b) <==> Seconds(a) < Seconds(b)
    ensures a == b <==> Seconds(a) == Seconds(b)
  {
    if (a.year, a.month, a.day) != (b.year, b.month, b.day) {
      if Before(a, b) {
        DaysGrow(a, b);
      } else {
        DaysGrow(b, a);
      }
    }
  }

  function YearUp(day: int, y: int): (r: int)
    requires DaysBeforeYear(y) <= day
    ensures DaysBeforeYear(r) <= day < DaysBeforeYear(r + 1)
    decreases day - DaysBeforeYear(y)
  {
    NextYear(y);
    if day < DaysBeforeYear(y + 1) then y else YearUp(day, y + 1)
  }

  function YearDown(day: int, y: int): (r: int)
    requires day < DaysBeforeYear(y + 1)
    ensures DaysBeforeYear(r) <= day < DaysBeforeYear(r + 1)
    decreases DaysBeforeYear(y + 1) - day
  {
    NextYear(y);
    if DaysBeforeYear(y) <= day then y else YearDown(day, y - 1)
  }

  function MonthUp(y: int, day: int, m: int): (r: int)
    requires 1 <= m <= 12 && DaysBeforeMonth(y, m) <= day < DaysBeforeMonth(y, 13)
    ensures m <= r <= 12 && DaysBeforeMonth(y, r) <= day < DaysBeforeMonth(y, r + 1)
    decreases 12 - m
  {
    if day < DaysBeforeMonth(y, m + 1) then m else MonthUp(y, day, m + 1)
  }

  /** Year, month and day of a day number, at midnight. */
  function DateOf(day: int): (c: Civil)
    ensures c.Valid() && DayNumber(c.year, c.month, c.day) == day && c.hour == c.minute == c.second == 0
  {
    var y := if day < DaysBeforeYear(1) then YearDown(day, 0) else YearUp(day, 1);
    MonthsFillYear(y);
    NextYear(y);
    var m := MonthUp(y, day - DaysBeforeYear(y), 1);
    Civil(y, m, day - DaysBeforeYear(y) - DaysBeforeMonth(y, m) + 1, 0, 0, 0)
  }

  function HourOf(s: int): (h: int)
    requires 0 <= s < DAY
    ensures 0 <= h < 24 && 0 <= s - h * 3600 < 3600
  {
    s / 3600
  }

  function MinuteOf(s: int): (m: int)
    requires 0 <= s < 3600
    ensures 0 <= m < 60 && 0 <= s - m * 60 < 60
  {
    s / 60
  }

  /** The calendar fields of an instant. */
  function CivilOf(t: int): (c: Civil)
    ensures c.Valid() && Seconds(c) == t
  {
    var date := DateOf(t / DAY);
    var s := t % DAY;
    var hour := HourOf(s);
    var minute := MinuteOf(s - hour * 3600);
    date.(hour := hour, minute := minute, second := s - hour * 3600 - minute * 60)
  }

  lemma CivilOfSeconds(c: Civil)
    requires c.Valid()
    ensures CivilOf(Seconds(c)) == c
  {
    BeforeIsEarlier(CivilOf(Seconds(c)), c);
  }
}
