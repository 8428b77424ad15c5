/**
 The log of sent SMS codes and the limits that each new entry is checked against
 (internal/repository/sms_verification.go, internal/service/sms.go, `Send`).

 A message keeps the instant, in nanoseconds of the Unix epoch, that was handed to
 `Create`; the stored columns are that instant and its expiry cut to whole seconds. Ids
 are positions in the log.
 */
module SmsLog {
  import opened Calendar
  import opened Options
  import opened Rfc3339

  const SECOND := 1_000_000_000
  const HOUR := 3600 * SECOND
  const CODE_TTL := 300 * SECOND
  const INTERVAL := 60 * SECOND
  const DAILY_LIMIT := 6
  const IP_HOURLY_LIMIT := 20
  /** UTC+8. */
  const CHINA_OFFSET := 8 * 3600

  /** The keyed hash of a code, taken to be injective and never empty. */
  datatype CodeHash = NoHash | Hash(code: string)

  /** The columns that are never updated. */
  datatype Message = Message(phone: string, purpose: string, codeHash: CodeHash, instant: int, ip: string) {
    function SentAt(): int { Sec(instant) }
    function ExpiresAt(): int { Sec(instant + CODE_TTL) }
  }

  function Sec(ns: int): int { ns / SECOND }

  // ---------------------------------------------------------------- lookups

  /** `WHERE phone = ? ORDER BY id DESC LIMIT 1` */
  function LastTo(log: seq<Message>, phone: string): (r: Option<nat>)
    ensures r.Some? ==> r.value < |log| && log[r.value].phone == phone
    ensures forall k :: 0 <= k < |log| && log[k].phone == phone ==> r.Some? && k <= r.value
  {
    if log == [] then None
    else if log[|log| - 1].phone == phone then Some(|log| - 1)
    else LastTo(log[..|log| - 1], phone)
  }

  /** `WHERE phone = ? AND purpose = ? ORDER BY id DESC LIMIT 1` */
  function Latest(log: seq<Message>, phone: string, purpose: string): (r: Option<nat>)
    ensures r.Some? ==> r.value < |log| && log[r.value].phone == phone && log[r.value].purpose == purpose
    ensures forall k :: 0 <= k < |log| && log[k].phone == phone && log[k].purpose == purpose ==>
              r.Some? && k <= r.value
  {
    if log == [] then None
    else if log[|log| - 1].phone == phone && log[|log| - 1].purpose == purpose then Some(|log| - 1)
    else Latest(log[..|log| - 1], phone, purpose)
  }

  function LastCodeHash(log: seq<Message>, phone: string): CodeHash {
    if LastTo(log, phone).None? then NoHash else log[LastTo(log, phone).value].codeHash
  }

  /** The number of messages that satisfy a condition. */
  function Count(log: seq<Message>, p: Message -> bool): nat {
    if log == [] then 0 else Count(log[..|log| - 1], p) + if p(log[|log| - 1]) then 1 else 0
  }

  lemma {:induction false} CountMonotone(log: seq<Message>, p: Message -> bool, q: Message -> bool)
    requires forall i :: 0 <= i < |log| ==> p(log[i]) ==> q(log[i])
    ensures Count(log, p) <= Count(log, q)
  {
    if log != [] {
      CountMonotone(log[..|log| - 1], p, q);
    }
  }

  lemma {:induction false} CountSame(log: seq<Message>, p: Message -> bool, q: Message -> bool)
    requires forall i :: 0 <= i < |log| ==> (p(log[i]) <==> q(log[i]))
    ensures Count(log, p) == Count(log, q)
  {
    CountMonotone(log, p, q);
    CountMonotone(log, q, p);
  }

  function ToSince(phone: string, since: int): Message -> bool { (m: Message) => m.phone == phone && m.SentAt() >= since }

  function ByIPSince(ip: string, since: int): Message -> bool { (m: Message) => m.ip == ip && m.SentAt() >= since }

  /** `CountSentSince`, with `sent_at >= ?` read as a comparison of times. */
  function CountSentSince(log: seq<Message>, phone: string, since: int): nat { Count(log, ToSince(phone, since)) }

  function CountSentByIPSince(log: seq<Message>, ip: string, since: int): nat { Count(log, ByIPSince(ip, since)) }

  /** A second of the Unix epoch as the column stores it. */
  function Stored(sec: int): string { Format(sec + UNIX_EPOCH) }

  predicate Storable(sec: int) { FourDigitYear(sec + UNIX_EPOCH) }

  /** `sent_at >= ?` as SQLite evaluates it, comparing printed timestamps as text. */
  predicate TextReaches(sec: int, since: string) { !Less(Stored(sec), since) }

  function ToTextSince(phone: string, since: string): Message -> bool {
    (m: Message) => m.phone == phone && TextReaches(m.SentAt(), since)
  }

  function ByIPTextSince(ip: string, since: string): Message -> bool {
    (m: Message) => m.ip == ip && TextReaches(m.SentAt(), since)
  }

  lemma TextReachesExactly(sec: int, since: int)
    requires Storable(sec) && Storable(since)
    ensures TextReaches(sec, Stored(since)) <==> sec >= since
  {
    TextOrder(sec + UNIX_EPOCH, since + UNIX_EPOCH);
  }

  /** Comparing the stored texts selects exactly the rows in the time window, as long as
      all times are in the years 0000 to 9999. */
  lemma CountsSelectWindow(log: seq<Message>, phone: string, ip: string, since: int)
    requires Storable(since)
    requires forall i :: 0 <= i < |log| ==> Storable(log[i].SentAt())
    ensures Count(log, ToTextSince(phone, Stored(since))) == CountSentSince(log, phone, since)
    ensures Count(log, ByIPTextSince(ip, Stored(since))) == CountSentByIPSince(log, ip, since)
  {
    var text := Stored(since);
    forall i | 0 <= i < |log| ensures TextReaches(log[i].SentAt(), text) <==> log[i].SentAt() >= since {
      TextReachesExactly(log[i].SentAt(), since);
    }
    CountSame(log, ToTextSince(phone, text), ToSince(phone, since));
    CountSame(log, ByIPTextSince(ip, text), ByIPSince(ip, since));
  }

  // ---------------------------------------------------------------- calendar days

  /** The calendar day in UTC+8 of a second of the Unix epoch. */
  function ChinaDay(sec: int): int { (sec + CHINA_OFFSET) / DAY }

  /** The second at which the day of `sec` began in UTC+8. */
  function DayStart(sec: int): int { ChinaDay(sec) * DAY - CHINA_OFFSET }

  /** The same by the calendar, as `time.Date` finds it from the year, month and day there. */
  function MidnightByCalendar(sec: int): int {
    var local := CivilOf(sec + CHINA_OFFSET + UNIX_EPOCH);
    Seconds(local.(hour := 0, minute := 0, second := 0)) - CHINA_OFFSET - UNIX_EPOCH
  }

  lemma MidnightIsDayStart(sec: int)
    ensures MidnightByCalendar(sec) == DayStart(sec)
  {
    var t := sec + CHINA_OFFSET + UNIX_EPOCH;
    var c := CivilOf(t);
    var day := DayNumber(c.year, c.month, c.day);
    assert Seconds(c.(hour := 0, minute := 0, second := 0)) == day * DAY;
    WholeDays(t, day);
    WholeDays(sec + CHINA_OFFSET, day - 719_528);
  }

  lemma WholeDays(t: int, day: int)
    requires day * DAY <= t < day * DAY + DAY
    ensures t / DAY == day
  {
  }

  lemma NotBeforeDayStart(a: int, b: int)
    requires ChinaDay(a) == ChinaDay(b)
    ensures a >= DayStart(b)
  {
  }

  // ---------------------------------------------------------------- limits

  datatype Refusal = TooFrequent | DailyLimit | IPLimit

  /** The checks of `Send`, in its order. */
  function Limited(log: seq<Message>, phone: string, ip: string, now: int): Option<Refusal> {
    var last := LastTo(log, phone);
    if last.Some? && now - log[last.value].SentAt() * SECOND < INTERVAL then Some(TooFrequent)
    else if CountSentSince(log, phone, DayStart(Sec(now))) >= DAILY_LIMIT then Some(DailyLimit)
    else if CountSentByIPSince(log, ip, Sec(now - HOUR)) >= IP_HOURLY_LIMIT then Some(IPLimit)
    else None
  }

  /** Every entry passed the checks against the entries before it, whatever the clock. */
  ghost predicate Checked(log: seq<Message>) {
    log == [] || (Checked(log[..|log| - 1]) && EntryChecked(log[..|log| - 1], log[|log| - 1]))
  }

  ghost predicate EntryChecked(before: seq<Message>, m: Message) {
    Limited(before, m.phone, m.ip, m.instant).None? && m.codeHash != LastCodeHash(before, m.phone)
  }

  lemma CheckedAppend(log: seq<Message>, m: Message)
    requires Checked(log) && EntryChecked(log, m)
    ensures Checked(log + [m])
  {
    assert (log + [m])[..|log|] == log;
  }

  /** What the checks mean in stored seconds. */
  lemma EntryFacts(before: seq<Message>, m: Message)
    requires EntryChecked(before, m)
    ensures var last := LastTo(before, m.phone);
            last.Some? ==> m.SentAt() >= before[last.value].SentAt() + 60
    ensures CountSentSince(before, m.phone, DayStart(m.SentAt())) < DAILY_LIMIT
    ensures CountSentByIPSince(before, m.ip, m.SentAt() - 3600) < IP_HOURLY_LIMIT
  {
    HourBefore(m.instant);
  }

  lemma {:induction false} GapFromLast(log: seq<Message>, i: nat, j: nat)
    requires Checked(log) && i < j < |log| && log[i].phone == log[j].phone
    ensures log[j].SentAt() - log[i].SentAt() >= 60
    decreases |log|
  {
    var n := |log| - 1;
    var before := log[..n];
    assert before[i] == log[i];
    if j < n {
      assert before[j] == log[j];
      GapFromLast(before, i, j);
    } else {
      EntryFacts(before, log[n]);
      var last := LastTo(before, log[n].phone).value;
      if i < last {
        GapFromLast(before, i, last);
      }
    }
  }

  /** The sends to one phone, across both purposes, are strictly ordered: stored times at
      least 60 seconds apart and the real instants more than 59. */
  lemma PhoneGap(log: seq<Message>, i: nat, j: nat)
    requires Checked(log) && i < j < |log| && log[i].phone == log[j].phone
    ensures log[j].SentAt() >= log[i].SentAt() + 60
    ensures log[j].instant - log[i].instant > 59 * SECOND
  {
    GapFromLast(log, i, j);
  }

  function OnDay(phone: string, day: int): Message -> bool { (m: Message) => m.phone == phone && ChinaDay(m.SentAt()) == day }

  /** Each calendar day in UTC+8 holds at most six sends to one phone. */
  lemma {:induction false} DailyBound(log: seq<Message>, phone: string, day: int)
    requires Checked(log)
    ensures Count(log, OnDay(phone, day)) <= DAILY_LIMIT
  {
    if log != [] {
      var before, m := log[..|log| - 1], log[|log| - 1];
      DailyBound(before, phone, day);
      if OnDay(phone, day)(m) {
        forall i | 0 <= i < |before| && OnDay(phone, day)(before[i])
          ensures ToSince(phone, DayStart(m.SentAt()))(before[i])
        {
          NotBeforeDayStart(before[i].SentAt(), m.SentAt());
        }
        EntryFacts(before, m);
        CountMonotone(before, OnDay(phone, day), ToSince(phone, DayStart(m.SentAt())));
      }
    }
  }

  function StoredWithin(ip: string, lo: int, hi: int): Message -> bool { (m: Message) => m.ip == ip && lo <= m.SentAt() <= hi }

  function ReallyWithin(ip: string, lo: int, hi: int): Message -> bool { (m: Message) => m.ip == ip && lo <= m.instant <= hi }

  /** Any closed hour of stored seconds holds at most 20 sends from one address. */
  lemma {:induction false} HourlyBoundStored(log: seq<Message>, ip: string, lo: int, hi: int)
    requires Checked(log) && hi <= lo + 3600
    ensures Count(log, StoredWithin(ip, lo, hi)) <= IP_HOURLY_LIMIT
  {
    if log != [] {
      var before, m := log[..|log| - 1], log[|log| - 1];
      HourlyBoundStored(before, ip, lo, hi);
      if StoredWithin(ip, lo, hi)(m) {
        EntryFacts(before, m);
        CountMonotone(before, StoredWithin(ip, lo, hi), ByIPSince(ip, m.SentAt() - 3600));
      }
    }
  }

  lemma HourBefore(now: int)
    ensures Sec(now - HOUR) == Sec(now) - 3600
  {
  }

  /** Any closed hour of real time holds at most 20 sends from one address. */
  lemma {:induction false} HourlyBoundReal(log: seq<Message>, ip: string, lo: int, hi: int)
    requires Checked(log) && hi <= lo + HOUR
    ensures Count(log, ReallyWithin(ip, lo, hi)) <= IP_HOURLY_LIMIT
  {
    if log != [] {
      var before, m := log[..|log| - 1], log[|log| - 1];
      HourlyBoundReal(before, ip, lo, hi);
      if ReallyWithin(ip, lo, hi)(m) {
        EntryFacts(before, m);
        HourBefore(m.instant);
        forall i | 0 <= i < |before| && ReallyWithin(ip, lo, hi)(before[i])
          ensures ByIPSince(ip, m.SentAt() - 3600)(before[i])
        {
          SecMonotone(m.instant - HOUR, before[i].instant);
        }
        CountMonotone(before, ReallyWithin(ip, lo, hi), ByIPSince(ip, m.SentAt() - 3600));
      }
    }
  }

  lemma SecMonotone(a: int, b: int)
    requires a <= b
    ensures Sec(a) <= Sec(b)
  {
  }

  /** Two sends to one phone with none in between never carry the same code. */
  lemma {:induction false} CodesAlternate(log: seq<Message>, i: nat, j: nat)
    requires Checked(log) && i < j < |log| && log[i].phone == log[j].phone
    requires forall k :: i < k < j ==> log[k].phone != log[i].phone
    ensures log[i].codeHash != log[j].codeHash
    decreases |log|
  {
    var n := |log| - 1;
    if j < n {
      CodesAlternate(log[..n], i, j);
    } else {
      assert log[..n][i] == log[i];
      assert LastTo(log[..n], log[n].phone) == Some(i);
    }
  }
}
