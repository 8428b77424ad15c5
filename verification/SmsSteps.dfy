/**
 What each step of the SMS service answers and writes, for every state and every input:
 both directions, by the rows themselves.
 */
module SmsSteps {
  import opened Calendar
  import opened Options
  import opened Sms
  import opened SmsLog
  import opened Text

  // ---------------------------------------------------------------- verification

  /** `id` is the newest message to the phone for the purpose. */
  ghost predicate Newest(log: seq<Message>, phone: string, purpose: string, id: nat) {
    && id < |log| && log[id].phone == phone && log[id].purpose == purpose
    && forall k :: id < k < |log| ==> log[k].phone != phone || log[k].purpose != purpose
  }

  lemma NewestIsLatest(log: seq<Message>, phone: string, purpose: string, id: nat)
    ensures Newest(log, phone, purpose, id) <==> Latest(log, phone, purpose) == Some(id)
  {
  }

  /** Whether a code can still be entered: unused and, to the stored second, not expired. */
  predicate Open(m: Message, c: CodeState, now: int) {
    !c.consumed && now <= Sec(m.instant + CODE_TTL) * SECOND
  }

  /** The code is right and may still be guessed at. */
  predicate Right(m: Message, c: CodeState, code: string) {
    c.attempts < MAX_ATTEMPTS && m.codeHash == Hash(code)
  }

  /** A verification is accepted if and only if there is a message to the phone of the call
      for the purpose of the call and the newest one is open and carries the code; a guess
      is wrong exactly when that one is open and the code is not right. */
  lemma VerifyExactly(s: State, phone: string, purpose: string, code: string, now: int, id: nat)
    requires |s.codes| == |s.log|
    ensures var p, log := TrimSpace(phone), s.log;
            var answer := Step(s, Verify(phone, purpose, code, now)).1;
            && (answer == Accepted(id) <==>
                  IsPhone(p) && Newest(log, p, purpose, id) && Open(log[id], s.codes[id], now)
                  && Right(log[id], s.codes[id], code))
            && (answer == WrongCode(id) <==>
                  IsPhone(p) && Newest(log, p, purpose, id) && Open(log[id], s.codes[id], now)
                  && !Right(log[id], s.codes[id], code))
  {
    NewestIsLatest(s.log, TrimSpace(phone), purpose, id);
  }

  /** The other answers: the phone is malformed, there is no such message, or the newest
      one is no longer open. */
  lemma VerifyRefusedExactly(s: State, phone: string, purpose: string, code: string, now: int)
    requires |s.codes| == |s.log|
    ensures var p, log := TrimSpace(phone), s.log;
            var answer := Step(s, Verify(phone, purpose, code, now)).1;
            && (answer == Refused(InvalidPhone) <==> !IsPhone(p))
            && (answer == Refused(CodeNotFound) <==>
                  IsPhone(p) && forall k :: 0 <= k < |log| ==> log[k].phone != p || log[k].purpose != purpose)
            && (answer == Refused(CodeExpired) <==>
                  IsPhone(p) && exists k: nat :: Newest(log, p, purpose, k) && !Open(log[k], s.codes[k], now))
  {
    var p := TrimSpace(phone);
    var latest := Latest(s.log, p, purpose);
    if latest.Some? {
      NewestIsLatest(s.log, p, purpose, latest.value);
    }
    forall k: nat | Newest(s.log, p, purpose, k) ensures latest == Some(k) {
      NewestIsLatest(s.log, p, purpose, k);
    }
  }

  /** A verification writes nothing but the code it answers about: an accepted one is used
      up, and a wrong guess is counted and uses the code up if it is the fifth. */
  lemma VerifyWrites(s: State, phone: string, purpose: string, code: string, now: int)
    requires |s.codes| == |s.log|
    ensures var (s', answer) := Step(s, Verify(phone, purpose, code, now));
            && s' == s.(codes := s'.codes) && |s'.codes| == |s.codes|
            && forall i :: 0 <= i < |s.codes| ==>
                 && (answer == Accepted(i) ==> s'.codes[i] == CodeState(s.codes[i].attempts, true))
                 && (answer == WrongCode(i) ==>
                       s'.codes[i] == CodeState(s.codes[i].attempts + 1, s.codes[i].consumed || s.codes[i].attempts >= 4))
                 && (answer != Accepted(i) && answer != WrongCode(i) ==> s'.codes[i] == s.codes[i])
  {
  }

  // ---------------------------------------------------------------- captchas

  /** Against ASCII, two characters match if they are the same letter in either case; the
      Kelvin sign and the long s count as k and s. */
  lemma FoldExactly(a: char, b: char)
    requires b < '\U{80}'
    ensures Fold(a) == Fold(b) <==>
            || a == b
            || ('a' <= a <= 'z' && 'A' <= b <= 'Z' && a - 'a' == b - 'A')
            || ('A' <= a <= 'Z' && 'a' <= b <= 'z' && a - 'A' == b - 'a')
            || (a == '\U{212A}' && (b == 'k' || b == 'K'))
            || (a == '\U{17F}' && (b == 's' || b == 'S'))
  {
  }

  /** The captcha is there, has not expired, and its code was entered, in any case and
      with any space around it. */
  predicate Solved(captchas: map<string, Captcha>, id: string, code: string, now: int) {
    && id in captchas && now <= captchas[id].expiresAt
    && (var entered, drawn := TrimSpace(code), captchas[id].code;
        |entered| == |drawn| && forall i :: 0 <= i < |drawn| ==> Fold(entered[i]) == Fold(drawn[i]))
  }

  /** A request goes on to the send mutex if and only if its phone and purpose are valid
      and its captcha is solved; a captcha once tried is gone, whatever the answer. */
  lemma CheckExactly(s: State, thread: nat, phone: string, purpose: string, id: string, code: string, ip: string, now: int)
    requires |s.codes| == |s.log| && thread !in s.waiting
    ensures var p := TrimSpace(phone);
            var valid := IsPhone(p) && (purpose == "register" || purpose == "password_reset");
            var (s', answer) := Step(s, Check(thread, phone, purpose, id, code, ip, now));
            && (answer == Refused(InvalidPhone) <==> !IsPhone(p))
            && (answer == Refused(InvalidPurpose) <==> IsPhone(p) && !valid)
            && (answer == Refused(CaptchaInvalid) <==> valid && !Solved(s.captchas, id, code, now))
            && (answer == Waiting <==> valid && Solved(s.captchas, id, code, now))
            && s' == s.(captchas := s'.captchas, waiting := s'.waiting)
            && (forall k :: k in s'.captchas <==> k in s.captchas && !(valid && k == id))
            && (forall k :: k in s'.captchas ==> s'.captchas[k] == s.captchas[k])
            && s'.waiting == if answer == Waiting then s.waiting[thread := Request(p, purpose, ip)] else s.waiting
  {
  }

  /** Issuing keeps exactly the captchas that have not expired, and the new one is good for
      five minutes. */
  lemma IssueExactly(s: State, id: string, code: string, drawn: int, now: int, k: string)
    requires |s.codes| == |s.log|
    ensures var s' := Step(s, Issue(id, code, drawn, now)).0;
            && s'.captchas[id] == Captcha(code, drawn + 300 * SECOND)
            && (k != id ==> (k in s'.captchas <==> k in s.captchas && now <= s.captchas[k].expiresAt))
            && (k != id && k in s'.captchas ==> s'.captchas[k] == s.captchas[k])
            && s' == s.(captchas := s'.captchas, issued := s.issued + 1)
  {
  }

  // ---------------------------------------------------------------- sending

  function Matching(log: seq<Message>, p: Message -> bool): set<nat> {
    set i: nat | i < |log| && p(log[i])
  }

  /** `SELECT COUNT(*)` is the number of rows selected. */
  lemma {:induction false} CountIsCardinality(log: seq<Message>, p: Message -> bool)
    ensures Count(log, p) == |Matching(log, p)|
  {
    if log == [] {
      assert Matching(log, p) == {};
    } else {
      var n := |log| - 1;
      var before := log[..n];
      CountIsCardinality(before, p);
      assert forall i :: 0 <= i < n ==> before[i] == log[i];
      assert Matching(log, p) == Matching(before, p) + if p(log[n]) then {n} else {};
    }
  }

  /** The rows of the phone on the calendar day of `now` in UTC+8, or later. */
  function SentToday(log: seq<Message>, phone: string, now: int): set<nat> {
    set i: nat | i < |log| && log[i].phone == phone && ChinaDay(Sec(log[i].instant)) >= ChinaDay(Sec(now))
  }

  /** The rows of the address within the last 3600 stored seconds, or later. */
  function SentThisHour(log: seq<Message>, ip: string, now: int): set<nat> {
    set i: nat | i < |log| && log[i].ip == ip && Sec(log[i].instant) >= Sec(now) - 3600
  }

  ghost predicate NewestTo(log: seq<Message>, phone: string, id: nat) {
    id < |log| && log[id].phone == phone && forall k :: id < k < |log| ==> log[k].phone != phone
  }

  lemma NewestToIsLast(log: seq<Message>, phone: string, id: nat)
    ensures NewestTo(log, phone, id) <==> LastTo(log, phone) == Some(id)
  {
  }

  /** Some message to the phone is less than a minute old. */
  ghost predicate TooSoon(log: seq<Message>, phone: string, now: int) {
    exists k: nat :: NewestTo(log, phone, k) && now - Sec(log[k].instant) * SECOND < 60 * SECOND
  }

  /** The last code sent to the phone is not this one. */
  ghost predicate Fresh(log: seq<Message>, phone: string, code: string) {
    forall k: nat :: NewestTo(log, phone, k) ==> log[k].codeHash != Hash(code)
  }

  lemma DayNotBefore(sec: int, now: int)
    ensures sec >= DayStart(now) <==> ChinaDay(sec) >= ChinaDay(now)
  {
  }

  lemma SentTodayCounted(log: seq<Message>, phone: string, now: int)
    ensures CountSentSince(log, phone, DayStart(Sec(now))) == |SentToday(log, phone, now)|
  {
    var p := ToSince(phone, DayStart(Sec(now)));
    CountIsCardinality(log, p);
    forall i: nat ensures i in Matching(log, p) <==> i in SentToday(log, phone, now) {
      if i < |log| {
        DayNotBefore(log[i].SentAt(), Sec(now));
      }
    }
    assert Matching(log, p) == SentToday(log, phone, now);
  }

  lemma SentThisHourCounted(log: seq<Message>, ip: string, now: int)
    ensures CountSentByIPSince(log, ip, Sec(now - HOUR)) == |SentThisHour(log, ip, now)|
  {
    var p := ByIPSince(ip, Sec(now - HOUR));
    CountIsCardinality(log, p);
    HourBefore(now);
    assert Matching(log, p) == SentThisHour(log, ip, now);
  }

  /** Which limit refuses a request, in the order of the checks, and none exactly when the
      gap, the day and the hour all have room. */
  lemma LimitedExactly(log: seq<Message>, phone: string, ip: string, now: int)
    ensures var answer := Limited(log, phone, ip, now);
            && (answer == Some(TooFrequent) <==> TooSoon(log, phone, now))
            && (answer == Some(DailyLimit) <==> !TooSoon(log, phone, now) && |SentToday(log, phone, now)| >= 6)
            && (answer == Some(IPLimit) <==>
                  !TooSoon(log, phone, now) && |SentToday(log, phone, now)| < 6 && |SentThisHour(log, ip, now)| >= 20)
            && (answer == None <==>
                  !TooSoon(log, phone, now) && |SentToday(log, phone, now)| < 6 && |SentThisHour(log, ip, now)| < 20)
  {
    SentTodayCounted(log, phone, now);
    SentThisHourCounted(log, ip, now);
    var last := LastTo(log, phone);
    if last.Some? {
      NewestToIsLast(log, phone, last.value);
    }
    forall k: nat | NewestTo(log, phone, k) ensures last == Some(k) {
      NewestToIsLast(log, phone, k);
    }
  }

  lemma FreshExactly(log: seq<Message>, phone: string, code: string)
    ensures Fresh(log, phone, code) <==> Hash(code) != LastCodeHash(log, phone)
  {
    var last := LastTo(log, phone);
    if last.Some? {
      NewestToIsLast(log, phone, last.value);
    }
    forall k: nat | NewestTo(log, phone, k) ensures last == Some(k) {
      NewestToIsLast(log, phone, k);
    }
  }

  /** The loop takes the first draw that differs from the last code, if any does. */
  lemma {:induction false} PickFirst(draws: seq<string>, last: CodeHash, n: nat)
    ensures Pick(draws, last).None? <==> forall i :: 0 <= i < |draws| ==> Hash(draws[i]) == last
    ensures n < |draws| && Hash(draws[n]) != last && (forall i :: 0 <= i < n ==> Hash(draws[i]) == last)
            ==> Pick(draws, last) == Some(draws[n])
  {
    if draws != [] {
      assert forall i :: 0 < i < |draws| ==> draws[i] == draws[1..][i - 1];
      PickFirst(draws[1..], last, if n > 0 then n - 1 else 0);
    }
  }

  /** The draw that is sent: the first whose code is not the last one of the phone. */
  ghost predicate Chosen(log: seq<Message>, phone: string, draws: seq<string>, n: nat) {
    n < |draws| && Fresh(log, phone, draws[n]) && forall i :: 0 <= i < n ==> !Fresh(log, phone, draws[i])
  }

  lemma ChosenExactly(log: seq<Message>, phone: string, draws: seq<string>, n: nat)
    ensures var code := Pick(draws, LastCodeHash(log, phone));
            && (code.None? <==> forall i :: 0 <= i < |draws| ==> !Fresh(log, phone, draws[i]))
            && (Chosen(log, phone, draws, n) ==> code == Some(draws[n]))
  {
    forall i | 0 <= i < |draws| ensures Fresh(log, phone, draws[i]) <==> Hash(draws[i]) != LastCodeHash(log, phone) {
      FreshExactly(log, phone, draws[i]);
    }
    PickFirst(draws, LastCodeHash(log, phone), n);
  }

  /** The three limits have room for the request. */
  ghost predicate Room(log: seq<Message>, r: Request, now: int) {
    !TooSoon(log, r.phone, now) && |SentToday(log, r.phone, now)| < 6 && |SentThisHour(log, r.ip, now)| < 20
  }

  /** The provider is asked if and only if the gateway is ready, the limits have room and
      some draw is fresh, and it is asked to send the first fresh one. */
  lemma StartExactly(s: State, thread: nat, gateway: Gateway, now: int, draws: seq<string>, n: nat)
    requires |s.codes| == |s.log| && thread in s.waiting && s.sending.None?
    ensures var log, r := s.log, s.waiting[thread];
            var (s', answer) := Step(s, Start(thread, gateway, now, draws));
            && (answer == Refused(NotConfigured) <==> gateway == Off)
            && (answer == Refused(InsecureEndpoint) <==> gateway == Insecure)
            && (answer == Refused(NoDistinctCode) <==>
                  gateway == Ready && Room(log, r, now) && forall i :: 0 <= i < |draws| ==> !Fresh(log, r.phone, draws[i]))
            && (answer == Started <==>
                  gateway == Ready && Room(log, r, now) && exists i :: 0 <= i < |draws| && Fresh(log, r.phone, draws[i]))
            && s' == s.(waiting := s.waiting - {thread}, sending := s'.sending)
            && (s'.sending.Some? <==> answer == Started)
            && (answer == Started && Chosen(log, r.phone, draws, n) ==>
                  s'.sending == Some(Message(r.phone, r.purpose, Hash(draws[n]), now, r.ip)))
  {
    var r := s.waiting[thread];
    LimitedExactly(s.log, r.phone, r.ip, now);
    ChosenExactly(s.log, r.phone, draws, n);
  }

  /** A whole `Send` that nothing interrupts records a message if and only if its phone and
      purpose are valid, its captcha is solved, the gateway is ready, the limits have room,
      some draw is fresh and the provider delivers; the one new row says what was sent. */
  lemma SendExactly(s: State, phone: string, purpose: string, id: string, code: string, ip: string, checked: int,
                    gateway: Gateway, now: int, draws: seq<string>, delivered: bool, n: nat)
    requires |s.codes| == |s.log| && s.waiting == map[] && s.sending.None?
    ensures var p := TrimSpace(phone);
            var (s', answer) := ThreeSteps(s, Check(0, phone, purpose, id, code, ip, checked),
                                           Start(0, gateway, now, draws), Finish(delivered));
            && (answer.Sent? <==>
                  && IsPhone(p) && (purpose == "register" || purpose == "password_reset")
                  && Solved(s.captchas, id, code, checked) && gateway == Ready
                  && Room(s.log, Request(p, purpose, ip), now)
                  && (exists i :: 0 <= i < |draws| && Fresh(s.log, p, draws[i])) && delivered)
            && (!answer.Sent? ==> s'.log == s.log && s'.codes == s.codes)
            && (answer.Sent? && Chosen(s.log, p, draws, n) ==>
                  && answer == Sent(|s.log|)
                  && s'.log == s.log + [Message(p, purpose, Hash(draws[n]), now, ip)]
                  && s'.codes == s.codes + [CodeState(0, false)])
  {
    CheckExactly(s, 0, phone, purpose, id, code, ip, checked);
    var (s1, o1) := Step(s, Check(0, phone, purpose, id, code, ip, checked));
    if o1 == Waiting {
      StartExactly(s1, 0, gateway, now, draws, n);
    }
  }

  // ---------------------------------------------------------------- a code sent is a code that works

  /** Every phone past the first check is in normal form. */
  ghost predicate PhonesNormal(s: State) {
    && (forall t :: t in s.waiting ==> IsPhone(s.waiting[t].phone))
    && (s.sending.Some? ==> IsPhone(s.sending.value.phone))
    && (forall m :: m in s.log ==> IsPhone(m.phone))
  }

  lemma {:induction false} RunKeepsPhonesNormal(s: State, run: seq<Event>)
    requires |s.codes| == |s.log| && PhonesNormal(s)
    ensures PhonesNormal(Run(s, run))
    decreases |run|
  {
    if run != [] {
      RunKeepsPhonesNormal(Step(s, run[0]).0, run[1..]);
    }
  }

  /** The event does not enter a code for this phone and purpose. */
  predicate Elsewhere(e: Event, phone: string, purpose: string) {
    e.Verify? ==> TrimSpace(e.phone) != phone || e.purpose != purpose
  }

  lemma StepUntouched(s: State, e: Event, id: nat)
    requires Invariant(s) && id < |s.log| && Elsewhere(e, s.log[id].phone, s.log[id].purpose)
    ensures var s' := Step(s, e).0; id < |s'.log| && s'.log[id] == s.log[id] && s'.codes[id] == s.codes[id]
  {
    if e.Verify? {
      VerifyExactly(s, e.phone, e.purpose, e.code, e.now, id);
      VerifyWrites(s, e.phone, e.purpose, e.code, e.now);
    }
  }

  lemma {:induction false} RunUntouched(s: State, run: seq<Event>, id: nat)
    requires Invariant(s) && id < |s.log|
    requires forall e :: e in run ==> Elsewhere(e, s.log[id].phone, s.log[id].purpose)
    ensures var end := Run(s, run); id < |end.log| && end.log[id] == s.log[id] && end.codes[id] == s.codes[id]
    decreases |run|
  {
    if run != [] {
      assert run[0] in run;
      StepUntouched(s, run[0], id);
      StepKeepsInvariant(s, run[0]);
      RunUntouched(Step(s, run[0]).0, run[1..], id);
    }
  }

  lemma OpenCodeAccepted(s: State, id: nat, after: seq<Event>, raw: string, purpose: string, code: string, now: int)
    requires Invariant(s) && id < |s.log| && IsPhone(s.log[id].phone)
    requires !s.codes[id].consumed && s.log[id].codeHash == Hash(code)
    requires TrimSpace(raw) == s.log[id].phone && purpose == s.log[id].purpose
    requires now <= Sec(s.log[id].instant + CODE_TTL) * SECOND
    requires forall e :: e in after ==> Elsewhere(e, s.log[id].phone, s.log[id].purpose)
    ensures var end := Run(s, after);
            Newest(end.log, s.log[id].phone, purpose, id) ==> Step(end, Verify(raw, purpose, code, now)).1 == Accepted(id)
  {
    RunUntouched(s, after, id);
    VerifyExactly(Run(s, after), raw, purpose, code, now, id);
  }

  /** In every reachable state, a code not used up yet is accepted later when it is entered
      in time for its phone and purpose, whatever else happens, as long as no newer one was
      sent there and none was entered there in between. */
  lemma SentCodeAccepted(before: seq<Event>, s: State, id: nat, after: seq<Event>, raw: string, purpose: string,
                         code: string, now: int)
    requires s == Run(INITIAL, before) && id < |s.log|
    requires !s.codes[id].consumed && s.log[id].codeHash == Hash(code)
    requires TrimSpace(raw) == s.log[id].phone && purpose == s.log[id].purpose
    requires now <= Sec(s.log[id].instant + CODE_TTL) * SECOND
    requires forall e :: e in after ==> Elsewhere(e, s.log[id].phone, s.log[id].purpose)
    ensures var end := Run(s, after);
            Newest(end.log, s.log[id].phone, purpose, id) ==> Step(end, Verify(raw, purpose, code, now)).1 == Accepted(id)
  {
    Reachable(before);
    RunKeepsPhonesNormal(INITIAL, before);
    OpenCodeAccepted(s, id, after, raw, purpose, code, now);
  }
}
