/** Normalising an account's expiry (internal/service/access.go, `normalizeExpiry`). */
module Expiry {
  import opened Calendar
  import opened Options
  import opened Rfc3339

  /** No expiry, a timestamp in UTC, or an input that no layout accepts. */
  datatype Normalized = Cleared | Expires(text: string) | Invalid

  const LAYOUTS := [RFC3339, DateMinute, DateSecond, DateOnly]

  /** The instant a layout gives; a bare date stands for its last second. */
  function Meant(layout: Layout, value: string): Option<int> {
    var t := Parse(layout, value);
    if t.Some? && layout == DateOnly then Some(t.value + DAY - 1) else t
  }

  /** The instant given by the first layout from the `i`-th on that accepts the value. */
  function FirstMeant(value: string, i: nat): Option<int>
    requires i <= |LAYOUTS|
    decreases |LAYOUTS| - i
  {
    if i == |LAYOUTS| then None
    else if Meant(LAYOUTS[i], value).Some? then Meant(LAYOUTS[i], value) else FirstMeant(value, i + 1)
  }

  function Normalize(value: string): Normalized {
    if value == "" then Cleared else
    var t := FirstMeant(value, 0);
    if t.None? then Invalid else Expires(Format(t.value))
  }

  method NormalizeExpiry(value: string) returns (r: Normalized)
    ensures r == Normalize(value)
  {
    if value == "" {
      return Cleared;
    }
    for i := 0 to |LAYOUTS|
      invariant FirstMeant(value, 0) == FirstMeant(value, i)
    {
      var parsed := Parse(LAYOUTS[i], value);
      if parsed.None? {
        continue;
      }
      var t := parsed.value;
      if LAYOUTS[i] == DateOnly {
        t := t + 24 * 3600 - 1;
      }
      assert Meant(LAYOUTS[i], value) == Some(t);
      return Expires(Format(t));
    }
    return Invalid;
  }

  /** Normalising a printed timestamp gives it back, if its year has four digits, and
      fails otherwise. */
  lemma NormalizePrinted(t: int)
    ensures Normalize(Format(t)) == if FourDigitYear(t) then Expires(Format(t)) else Invalid
  {
    assert Format(t) != "";
    if FourDigitYear(t) {
      FormatRoundTrip(t);
      assert Meant(LAYOUTS[0], Format(t)) == Some(t);
    } else {
      forall i | 0 <= i < |LAYOUTS| ensures Meant(LAYOUTS[i], Format(t)).None? {
        OtherYearsUnreadable(t, LAYOUTS[i]);
      }
      NoneMeant(Format(t), 0);
    }
  }

  lemma {:induction false} NoneMeant(value: string, i: nat)
    requires i <= |LAYOUTS| && forall k :: 0 <= k < |LAYOUTS| ==> Meant(LAYOUTS[k], value).None?
    ensures FirstMeant(value, i).None?
    decreases |LAYOUTS| - i
  {
    if i < |LAYOUTS| {
      NoneMeant(value, i + 1);
    }
  }

  /** Whatever the input, normalising twice is normalising once if and only if the result
      lies in the years 0000 to 9999; otherwise the stored text is rejected when it is
      submitted again. */
  lemma IdempotentExactly(value: string)
    ensures match Normalize(value)
            case Expires(text) =>
              FirstMeant(value, 0).Some?
              && (Normalize(text) == Normalize(value) <==> FourDigitYear(FirstMeant(value, 0).value))
              && (Normalize(text) == Invalid <==> !FourDigitYear(FirstMeant(value, 0).value))
            case _ => true
  {
    if Normalize(value).Expires? {
      NormalizePrinted(FirstMeant(value, 0).value);
    }
  }

  lemma HourAfterYear9999(t: int)
    requires t == Seconds(Civil(9999, 12, 31, 23, 59, 59)) + 3600
    ensures CivilOf(t) == Civil(10000, 1, 1, 0, 59, 59)
  {
    var next := Civil(10000, 1, 1, 0, 59, 59);
    NextYear(9999);
    MonthsFillYear(9999);
    assert DaysBeforeMonth(9999, 13) == DaysBeforeMonth(9999, 12) + 31;
    assert Seconds(next) == t;
    CivilOfSeconds(next);
  }

  lemma WestOneHour()
    ensures GetZone("-01:00") == Some((-3600, []))
  {
    assert "-01:00"[1..3] == "01" && "-01:00"[4..6] == "00" && "-01:00"[6..] == [];
  }

  /** The last second of the year 9999, one hour west of Greenwich, lies in the year 10000. */
  lemma YearTenThousand(value: string)
    requires value == CivilText(Civil(9999, 12, 31, 23, 59, 59), "-01:00")
    ensures Normalize(value).Expires? && Normalize(Normalize(value).text) == Invalid
  {
    var last := Civil(9999, 12, 31, 23, 59, 59);
    WestOneHour();
    FieldsRoundTrip(last, "-01:00", -3600);
    ParseFrom(RFC3339, value, last, -3600);
    var t := Seconds(last) + 3600;
    assert Meant(LAYOUTS[0], value) == Some(t) && value != "";
    HourAfterYear9999(t);
    NormalizePrinted(t);
  }

  lemma OnlyTheDate(value: string, c: Civil)
    requires GetDate(value) == Some((c, "")) && c.Valid()
    ensures ParseFields(RFC3339, value).None? && ParseFields(DateMinute, value).None?
    ensures ParseFields(DateSecond, value).None? && ParseFields(DateOnly, value) == Some((c, 0))
  {
  }

  lemma FourthMeant(value: string, t: int)
    requires Parse(RFC3339, value).None? && Parse(DateMinute, value).None? && Parse(DateSecond, value).None?
    requires Parse(DateOnly, value) == Some(t)
    ensures FirstMeant(value, 0) == Some(t + DAY - 1)
  {
    assert Meant(LAYOUTS[3], value) == Some(t + DAY - 1);
    assert FirstMeant(value, 0) == FirstMeant(value, 1) == FirstMeant(value, 2) == FirstMeant(value, 3);
  }

  lemma EndOfDay(c: Civil, t: int)
    requires c.Valid() && c.hour == c.minute == c.second == 0 && t == Seconds(c) + DAY - 1
    ensures CivilOf(t) == c.(hour := 23, minute := 59, second := 59)
  {
    CivilOfSeconds(c.(hour := 23, minute := 59, second := 59));
  }

  /** A bare date becomes 23:59:59 UTC of that day. */
  lemma BareDateEndsItsDay(value: string, c: Civil)
    requires GetDate(value) == Some((c, "")) && c.Valid()
    ensures Normalize(value) == Expires(CivilText(c.(hour := 23, minute := 59, second := 59), "Z"))
  {
    OnlyTheDate(value, c);
    ParseFrom(DateOnly, value, c, 0);
    FourthMeant(value, Seconds(c));
    EndOfDay(c, Seconds(c) + DAY - 1);
  }

  /** Every bare date with a four-digit year is read that way. */
  lemma BareDateRead(c: Civil)
    requires c.Valid() && 0 <= c.year <= 9999 && c.hour == c.minute == c.second == 0
    ensures GetDate(DateText(c, "")) == Some((c, ""))
  {
    GetDateRoundTrip(c, "");
  }
}
