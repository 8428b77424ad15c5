/**
 Captchas, sending and code verification (internal/service/sms.go).

 `Send` is three steps: checking its captcha under the captcha mutex; then, holding the
 send mutex, the checks up to the request to the provider; and, still holding it, the
 provider's answer and the new row. Anything else may run between them. A verification
 is one step. Randomness, the gateway configuration and the provider's answer are inputs.
 Every clock reading is an input too, and none of them is assumed to be ordered.
 */
module Sms {
  import opened Options
  import opened SmsLog
  import opened Text

  const CAPTCHA_TTL := 300 * SECOND
  const MAX_ATTEMPTS := 5
  const MAX_DRAWS := 5
  const REGISTER := "register"
  const PASSWORD_RESET := "password_reset"

  datatype Error =
    | InvalidPhone | InvalidPurpose | CaptchaInvalid | NotConfigured | InsecureEndpoint
    | Limit(refusal: Refusal) | NoDistinctCode | Provider
    | CodeNotFound | CodeExpired | Busy

  /** What one step answers; `Started` means that the provider is being asked. */
  datatype Outcome = Issued | Waiting | Started | Sent(id: nat) | Accepted(id: nat) | WrongCode(id: nat) | Refused(error: Error)

  datatype Gateway = Off | Insecure | Ready

  datatype Captcha = Captcha(code: string, expiresAt: int)

  /** The columns of a message that verifications update. */
  datatype CodeState = CodeState(attempts: nat, consumed: bool)

  datatype Request = Request(phone: string, purpose: string, ip: string)

  datatype State = State(log: seq<Message>, codes: seq<CodeState>, captchas: map<string, Captcha>,
                         waiting: map<nat, Request>, sending: Option<Message>, issued: nat)

  const INITIAL := State([], [], map[], map[], None, 0)

  datatype Event =
    | Issue(id: string, code: string, drawn: int, now: int)
    | Check(thread: nat, phone: string, purpose: string, id: string, code: string, ip: string, now: int)
    | Start(thread: nat, gateway: Gateway, now: int, draws: seq<string>)
    | Finish(delivered: bool)
    | Verify(phone: string, purpose: string, code: string, now: int)

  // ---------------------------------------------------------------- pieces

  /** `^1[3-9][0-9]{9}$` */
  predicate IsPhone(s: string) {
    |s| == 11 && s[0] == '1' && '3' <= s[1] <= '9' && forall i :: 2 <= i < 11 ==> IsDigit(s[i])
  }

  function NormalizePhone(phone: string): Option<string> {
    var trimmed := TrimSpace(phone);
    if IsPhone(trimmed) then Some(trimmed) else None
  }

  /** The Kelvin sign and the long s are the only other characters that fold to ASCII. */
  function Fold(c: char): char {
    if 'A' <= c <= 'Z' then c - 'A' + 'a' else if c == '\U{212A}' then 'k' else if c == '\U{17F}' then 's' else c
  }

  /** `strings.EqualFold`, for a `b` in ASCII. */
  predicate EqualFold(a: string, b: string) {
    |a| == |b| && forall i :: 0 <= i < |a| ==> Fold(a[i]) == Fold(b[i])
  }

  function Unexpired(captchas: map<string, Captcha>, now: int): map<string, Captcha> {
    map id | id in captchas && now <= captchas[id].expiresAt :: captchas[id]
  }

  predicate CaptchaPasses(captchas: map<string, Captcha>, id: string, code: string, now: int) {
    id in captchas && now <= captchas[id].expiresAt && EqualFold(TrimSpace(code), captchas[id].code)
  }

  /** The first of the drawn codes whose hash differs from the last one sent. */
  function Pick(draws: seq<string>, last: CodeHash): Option<string> {
    if draws == [] then None else if Hash(draws[0]) != last then Some(draws[0]) else Pick(draws[1..], last)
  }

  /** The checks made while holding the send mutex. */
  function Admit(log: seq<Message>, r: Request, gateway: Gateway, now: int, draws: seq<string>): (Option<Message>, Outcome) {
    if gateway == Off then (None, Refused(NotConfigured))
    else if gateway == Insecure then (None, Refused(InsecureEndpoint))
    else
      var refusal := Limited(log, r.phone, r.ip, now);
      if refusal.Some? then (None, Refused(Limit(refusal.value))) else
      var code := Pick(draws, LastCodeHash(log, r.phone));
      if code.None? then (None, Refused(NoDistinctCode))
      else (Some(Message(r.phone, r.purpose, Hash(code.value), now, r.ip)), Started)
  }

  /** The checks of `VerifyCode` on the newest row for the phone and purpose. */
  function Judge(m: Message, c: CodeState, id: nat, code: string, now: int): (CodeState, Outcome) {
    if c.consumed || now > m.ExpiresAt() * SECOND then (c, Refused(CodeExpired))
    else if c.attempts >= MAX_ATTEMPTS || Hash(code) != m.codeHash then
      (CodeState(c.attempts + 1, c.consumed || c.attempts + 1 >= MAX_ATTEMPTS), WrongCode(id))
    else (c.(consumed := true), Accepted(id))
  }

  /** The captcha is used up; if it passes, its request waits for the send mutex. */
  function Taken(s: State, thread: nat, r: Request, id: string, passes: bool): (State, Outcome) {
    var s' := s.(captchas := s.captchas - {id});
    if !passes then (s', Refused(CaptchaInvalid)) else (s'.(waiting := s.waiting[thread := r]), Waiting)
  }

  function Step(s: State, e: Event): (r: (State, Outcome))
    requires |s.codes| == |s.log|
    ensures |r.0.codes| == |r.0.log|
  {
    match e
    case Issue(id, code, drawn, now) =>
      (s.(captchas := Unexpired(s.captchas, now)[id := Captcha(code, drawn + CAPTCHA_TTL)], issued := s.issued + 1), Issued)
    case Check(thread, phone, purpose, id, code, ip, now) =>
      var normal := NormalizePhone(phone);
      if thread in s.waiting then (s, Refused(Busy))
      else if normal.None? then (s, Refused(InvalidPhone))
      else if purpose != REGISTER && purpose != PASSWORD_RESET then (s, Refused(InvalidPurpose))
      else Taken(s, thread, Request(normal.value, purpose, ip), id, CaptchaPasses(s.captchas, id, code, now))
    case Start(thread, gateway, now, draws) =>
      if thread !in s.waiting || s.sending.Some? then (s, Refused(Busy)) else
      var (m, outcome) := Admit(s.log, s.waiting[thread], gateway, now, draws);
      (s.(waiting := s.waiting - {thread}, sending := m), outcome)
    case Finish(delivered) =>
      if s.sending.None? then (s, Refused(Busy))
      else if !delivered then (s.(sending := None), Refused(Provider))
      else (s.(log := s.log + [s.sending.value], codes := s.codes + [CodeState(0, false)], sending := None), Sent(|s.log|))
    case Verify(phone, purpose, code, now) =>
      var normal := NormalizePhone(phone);
      if normal.None? then (s, Refused(InvalidPhone)) else
      var id := Latest(s.log, normal.value, purpose);
      if id.None? then (s, Refused(CodeNotFound)) else
      var (c, outcome) := Judge(s.log[id.value], s.codes[id.value], id.value, code, now);
      (s.(codes := s.codes[id.value := c]), outcome)
  }

  /** Three steps in a row, each taken only if the one before went through. */
  function ThreeSteps(s: State, check: Event, start: Event, finish: Event): (State, Outcome)
    requires |s.codes| == |s.log|
  {
    var (s1, o1) := Step(s, check);
    if o1 != Waiting then (s1, o1) else
    var (s2, o2) := Step(s1, start);
    if o2 != Started then (s2, o2) else Step(s2, finish)
  }

  // ---------------------------------------------------------------- the service

  class SMSService {
    var log: seq<Message>
    var codes: seq<CodeState>
    var captchas: map<string, Captcha>
    ghost var issued: nat

    ghost function View(): State
      reads this
    {
      State(log, codes, captchas, map[], None, issued)
    }

    ghost predicate Valid()
      reads this
    {
      |log| == |codes|
    }

    constructor ()
      ensures Valid() && View() == INITIAL
    {
      log, codes, captchas, issued := [], [], map[], 0;
    }

    method IssueCaptcha(id: string, code: string, drawn: int, now: int)
      requires Valid()
      modifies this
      ensures Valid() && View() == Step(old(View()), Issue(id, code, drawn, now)).0
    {
      CleanupCaptchas(now);
      captchas := captchas[id := Captcha(code, drawn + CAPTCHA_TTL)];
      issued := issued + 1;
    }

    method CleanupCaptchas(now: int)
      modifies this`captchas
      ensures captchas == Unexpired(old(captchas), now)
    {
      var todo := captchas.Keys;
      while todo != {}
        invariant todo <= captchas.Keys
        invariant captchas == map id | id in old(captchas) && (id in todo || now <= old(captchas)[id].expiresAt) :: old(captchas)[id]
        decreases todo
      {
        var id :| id in todo;
        todo := todo - {id};
        if now > captchas[id].expiresAt {
          captchas := captchas - {id};
        }
      }
    }

    /** The captcha is gone afterwards, whether or not it passed. */
    method VerifyCaptcha(id: string, code: string, now: int) returns (passed: bool)
      modifies this`captchas
      ensures captchas == old(captchas) - {id} && (passed <==> CaptchaPasses(old(captchas), id, code, now))
    {
      passed := id in captchas && now <= captchas[id].expiresAt && EqualFold(TrimSpace(code), captchas[id].code);
      captchas := captchas - {id};
    }

    /** The retry loop of `Send`: at most five draws, kept at the first that differs. */
    method PickCode(draws: seq<string>, last: CodeHash) returns (code: Option<string>)
      requires |draws| == MAX_DRAWS
      ensures code == Pick(draws, last)
      ensures code.Some? ==> Hash(code.value) != last && code.value in draws
    {
      var drawn := "";
      for attempts := 0 to MAX_DRAWS
        invariant Pick(draws, last) == Pick(draws[attempts..], last)
      {
        drawn := draws[attempts];
        assert draws[attempts..][1..] == draws[attempts + 1..];
        if Hash(drawn) != last {
          return Some(drawn);
        }
      }
      return None;
    }

    /** The part of `Send` that holds the send mutex. */
    method SendLocked(r: Request, gateway: Gateway, now: int, draws: seq<string>, delivered: bool) returns (answer: Outcome)
      requires Valid() && |draws| == MAX_DRAWS
      modifies this`log, this`codes
      ensures Valid()
      ensures var (m, outcome) := Admit(old(log), r, gateway, now, draws);
              if m.None? then answer == outcome && log == old(log) && codes == old(codes)
              else if !delivered then answer == Refused(Provider) && log == old(log) && codes == old(codes)
              else answer == Sent(|old(log)|) && log == old(log) + [m.value] && codes == old(codes) + [CodeState(0, false)]
    {
      if gateway == Off {
        return Refused(NotConfigured);
      }
      if gateway == Insecure {
        return Refused(InsecureEndpoint);
      }
      var last := LastTo(log, r.phone);
      if last.Some? && now - log[last.value].SentAt() * SECOND < INTERVAL {
        return Refused(Limit(TooFrequent));
      }
      var dayStart := Midnight(now);
      if CountSentSince(log, r.phone, dayStart) >= DAILY_LIMIT {
        return Refused(Limit(DailyLimit));
      }
      if CountSentByIPSince(log, r.ip, Sec(now - HOUR)) >= IP_HOURLY_LIMIT {
        return Refused(Limit(IPLimit));
      }
      var picked := PickCode(draws, LastCodeHash(log, r.phone));
      if picked.None? {
        return Refused(NoDistinctCode);
      }
      if !delivered {
        return Refused(Provider);
      }
      answer := Sent(|log|);
      log := log + [Message(r.phone, r.purpose, Hash(picked.value), now, r.ip)];
      codes := codes + [CodeState(0, false)];
    }

    method Midnight(now: int) returns (dayStart: int)
      ensures dayStart == DayStart(Sec(now))
    {
      dayStart := MidnightByCalendar(Sec(now));
      MidnightIsDayStart(Sec(now));
    }

    /** `Send` with nothing else running: the three steps in a row. */
    method Send(phone: string, purpose: string, id: string, code: string, ip: string, checked: int,
                gateway: Gateway, now: int, draws: seq<string>, delivered: bool) returns (r: Outcome)
      requires Valid() && |draws| == MAX_DRAWS
      modifies this
      ensures Valid()
      ensures (View(), r) == ThreeSteps(old(View()), Check(0, phone, purpose, id, code, ip, checked),
                                        Start(0, gateway, now, draws), Finish(delivered))
    {
      var normal := NormalizePhone(phone);
      if normal.None? {
        return Refused(InvalidPhone);
      }
      if purpose != REGISTER && purpose != PASSWORD_RESET {
        return Refused(InvalidPurpose);
      }
      var passed := VerifyCaptcha(id, code, checked);
      if !passed {
        return Refused(CaptchaInvalid);
      }
      var request := Request(normal.value, purpose, ip);
      assert map[][0 := request] - {0} == map[];
      r := SendLocked(request, gateway, now, draws, delivered);
    }

    method VerifyCode(phone: string, purpose: string, code: string, now: int) returns (r: Outcome)
      requires Valid()
      modifies this`codes
      ensures Valid() && View() == Step(old(View()), Verify(phone, purpose, code, now)).0
      ensures r == Step(old(View()), Verify(phone, purpose, code, now)).1
    {
      var normal := NormalizePhone(phone);
      if normal.None? {
        return Refused(InvalidPhone);
      }
      var latest := Latest(log, normal.value, purpose);
      if latest.None? {
        return Refused(CodeNotFound);
      }
      var id := latest.value;
      var c := codes[id];
      if c.consumed || now > log[id].ExpiresAt() * SECOND {
        assert codes == codes[id := c];
        return Refused(CodeExpired);
      }
      if c.attempts >= MAX_ATTEMPTS || Hash(code) != log[id].codeHash {
        var consume := c.attempts + 1 >= MAX_ATTEMPTS;
        codes := codes[id := CodeState(c.attempts + 1, if consume then true else c.consumed)];
        return WrongCode(id);
      }
      codes := codes[id := c.(consumed := true)];
      return Accepted(id);
    }
  }

  // ---------------------------------------------------------------- runs

  /** At most five attempts, and five of them use the code up. */
  predicate CodeOk(c: CodeState) { c.attempts <= MAX_ATTEMPTS && (c.attempts == MAX_ATTEMPTS ==> c.consumed) }

  function InFlight(s: State): nat { if s.sending.Some? then 1 else 0 }

  ghost predicate Invariant(s: State) {
    && |s.codes| == |s.log|
    && Checked(s.log)
    && (s.sending.Some? ==> EntryChecked(s.log, s.sending.value))
    && (forall i :: 0 <= i < |s.codes| ==> CodeOk(s.codes[i]))
    && |s.log| + InFlight(s) + |s.waiting| + |s.captchas| <= s.issued
  }

  lemma {:induction false} PickDiffers(draws: seq<string>, last: CodeHash)
    ensures Pick(draws, last).Some? ==> Hash(Pick(draws, last).value) != last
  {
    if draws != [] {
      PickDiffers(draws[1..], last);
    }
  }

  lemma {:induction false} FewerKeys<K, V>(small: map<K, V>, large: map<K, V>)
    requires small.Keys <= large.Keys
    ensures |small| <= |large|
    decreases |small|
  {
    if small.Keys != {} {
      var k :| k in small.Keys;
      FewerKeys(small - {k}, large - {k});
      OneKeyLess(small, k);
      OneKeyLess(large, k);
    }
  }

  lemma OneKeyLess<K, V>(m: map<K, V>, k: K)
    requires k in m
    ensures |m - {k}| == |m| - 1
  {
    assert (m - {k}).Keys == m.Keys - {k};
    assert |(m - {k}).Keys| == |m.Keys| - 1;
  }

  lemma OneKeyMore<K, V>(m: map<K, V>, k: K, v: V)
    ensures |m[k := v]| <= |m| + 1
  {
    assert m[k := v].Keys == m.Keys + {k};
    assert |m[k := v].Keys| <= |m.Keys| + 1;
  }

  lemma IssueKeepsInvariant(s: State, e: Event)
    requires Invariant(s) && e.Issue?
    ensures Invariant(Step(s, e).0)
  {
    var live := Unexpired(s.captchas, e.now);
    FewerKeys(live, s.captchas);
    OneKeyMore(live, e.id, Captcha(e.code, e.drawn + CAPTCHA_TTL));
  }

  lemma TakenKeepsInvariant(s: State, thread: nat, r: Request, id: string, passes: bool)
    requires Invariant(s) && (passes ==> id in s.captchas)
    ensures Invariant(Taken(s, thread, r, id, passes).0)
  {
    FewerKeys(s.captchas - {id}, s.captchas);
    if passes {
      OneKeyLess(s.captchas, id);
      OneKeyMore(s.waiting, thread, r);
    }
  }

  lemma CheckKeepsInvariant(s: State, e: Event)
    requires Invariant(s) && e.Check?
    ensures Invariant(Step(s, e).0)
  {
    var normal := NormalizePhone(e.phone);
    if normal.Some? {
      TakenKeepsInvariant(s, e.thread, Request(normal.value, e.purpose, e.ip), e.id,
                          CaptchaPasses(s.captchas, e.id, e.code, e.now));
    }
  }

  lemma StartKeepsInvariant(s: State, e: Event)
    requires Invariant(s) && e.Start?
    ensures Invariant(Step(s, e).0)
  {
    if e.thread in s.waiting && s.sending.None? {
      PickDiffers(e.draws, LastCodeHash(s.log, s.waiting[e.thread].phone));
      OneKeyLess(s.waiting, e.thread);
    }
  }

  lemma FinishKeepsInvariant(s: State, e: Event)
    requires Invariant(s) && e.Finish?
    ensures Invariant(Step(s, e).0)
  {
    if s.sending.Some? {
      CheckedAppend(s.log, s.sending.value);
    }
  }

  lemma VerifyKeepsInvariant(s: State, e: Event)
    requires Invariant(s) && e.Verify?
    ensures Invariant(Step(s, e).0)
  {
    var normal := NormalizePhone(e.phone);
    if normal.Some? && Latest(s.log, normal.value, e.purpose).Some? {
      var id := Latest(s.log, normal.value, e.purpose).value;
      var c := Judge(s.log[id], s.codes[id], id, e.code, e.now).0;
      assert CodeOk(c) && Step(s, e).0 == s.(codes := s.codes[id := c]);
    }
  }

  lemma StepKeepsInvariant(s: State, e: Event)
    requires Invariant(s)
    ensures Invariant(Step(s, e).0)
  {
    match e
    case Issue(_, _, _, _) => IssueKeepsInvariant(s, e);
    case Check(_, _, _, _, _, _, _) => CheckKeepsInvariant(s, e);
    case Start(_, _, _, _) => StartKeepsInvariant(s, e);
    case Finish(_) => FinishKeepsInvariant(s, e);
    case Verify(_, _, _, _) => VerifyKeepsInvariant(s, e);
  }

  function Run(s: State, run: seq<Event>): (r: State)
    requires |s.codes| == |s.log|
    ensures |r.codes| == |r.log|
    decreases |run|
  {
    if run == [] then s else Run(Step(s, run[0]).0, run[1..])
  }

  function Outcomes(s: State, run: seq<Event>): seq<Outcome>
    requires |s.codes| == |s.log|
    decreases |run|
  {
    if run == [] then [] else [Step(s, run[0]).1] + Outcomes(Step(s, run[0]).0, run[1..])
  }

  /** In every reachable state the log obeys the three limits, every code is in order, and
      each recorded, pending or waiting send has used up a captcha of its own. */
  lemma {:induction false} RunKeepsInvariant(s: State, run: seq<Event>)
    requires Invariant(s)
    ensures Invariant(Run(s, run))
    decreases |run|
  {
    if run != [] {
      StepKeepsInvariant(s, run[0]);
      RunKeepsInvariant(Step(s, run[0]).0, run[1..]);
    }
  }

  lemma Reachable(run: seq<Event>)
    ensures Invariant(Run(INITIAL, run))
  {
    RunKeepsInvariant(INITIAL, run);
  }

  /** However the steps are interleaved and whatever the clock does, the recorded sends
      obey the gap per phone, the calendar day in UTC+8 and the sliding hour per address. */
  lemma SendLimits(run: seq<Event>, phone: string, day: int, ip: string, lo: int, i: nat, j: nat)
    ensures var log := Run(INITIAL, run).log;
            && Count(log, OnDay(phone, day)) <= DAILY_LIMIT
            && Count(log, StoredWithin(ip, lo, lo + 3600)) <= IP_HOURLY_LIMIT
            && Count(log, ReallyWithin(ip, lo, lo + HOUR)) <= IP_HOURLY_LIMIT
            && (i < j < |log| && log[i].phone == log[j].phone ==>
                  log[j].SentAt() >= log[i].SentAt() + 60 && log[j].instant - log[i].instant > 59 * SECOND)
  {
    Reachable(run);
    var log := Run(INITIAL, run).log;
    DailyBound(log, phone, day);
    HourlyBoundStored(log, ip, lo, lo + 3600);
    HourlyBoundReal(log, ip, lo, lo + HOUR);
    if i < j < |log| && log[i].phone == log[j].phone {
      PhoneGap(log, i, j);
    }
  }

  /** Recorded sends never outnumber the captchas issued: each needs one of its own. */
  lemma SendsNeedCaptchas(run: seq<Event>)
    ensures |Run(INITIAL, run).log| <= Run(INITIAL, run).issued
  {
    Reachable(run);
  }

  // ---------------------------------------------------------------- verification

  /** The log only grows, and a used code stays used. */
  lemma StepGrows(s: State, e: Event)
    requires Invariant(s)
    ensures s.log <= Step(s, e).0.log
    ensures forall i :: 0 <= i < |s.codes| && s.codes[i].consumed ==> Step(s, e).0.codes[i].consumed
  {
  }

  lemma {:induction false} RunGrows(s: State, run: seq<Event>)
    requires Invariant(s)
    ensures s.log <= Run(s, run).log
    decreases |run|
  {
    if run != [] {
      StepGrows(s, run[0]);
      StepKeepsInvariant(s, run[0]);
      RunGrows(Step(s, run[0]).0, run[1..]);
    }
  }

  /** What an acceptance means: the row is the newest for its phone and purpose, it was
      unused and is used now, and it was sent at most five minutes before. */
  lemma AcceptedMeans(s: State, e: Event, id: nat)
    requires Invariant(s) && Step(s, e).1 == Accepted(id)
    ensures e.Verify? && id < |s.log| && !s.codes[id].consumed && Step(s, e).0.codes[id].consumed
    ensures s.log[id].codeHash == Hash(e.code) && e.now - s.log[id].instant <= CODE_TTL
    ensures forall k :: id < k < |s.log| ==> s.log[k].phone != s.log[id].phone || s.log[k].purpose != s.log[id].purpose
  {
    ExpiryCut(e.now, s.log[id].instant + CODE_TTL);
  }

  lemma ExpiryCut(now: int, expires: int)
    ensures now <= Sec(expires) * SECOND ==> now <= expires
  {
  }

  function Acceptances(outcomes: seq<Outcome>, id: nat): nat {
    if outcomes == [] then 0 else (if outcomes[0] == Accepted(id) then 1 else 0) + Acceptances(outcomes[1..], id)
  }

  /** A code is accepted at most once, and not at all once it is used up. */
  lemma {:induction false} AcceptedOnce(s: State, run: seq<Event>, id: nat)
    requires Invariant(s)
    ensures Acceptances(Outcomes(s, run), id) <= if id < |s.codes| && s.codes[id].consumed then 0 else 1
    decreases |run|
  {
    if run != [] {
      var (s', outcome) := Step(s, run[0]);
      StepKeepsInvariant(s, run[0]);
      StepGrows(s, run[0]);
      if outcome == Accepted(id) {
        AcceptedMeans(s, run[0], id);
      }
      AcceptedOnce(s', run[1..], id);
      assert Outcomes(s, run)[1..] == Outcomes(s', run[1..]);
    }
  }

  /** The attempts recorded against the codes sent to a phone on one day. */
  function AttemptsOn(log: seq<Message>, codes: seq<CodeState>, phone: string, day: int): nat
    requires |codes| == |log|
  {
    if log == [] then 0 else
      var n := |log| - 1;
      AttemptsOn(log[..n], codes[..n], phone, day) + if OnDay(phone, day)(log[n]) then codes[n].attempts else 0
  }

  lemma {:induction false} AttemptsBounded(log: seq<Message>, codes: seq<CodeState>, phone: string, day: int)
    requires |codes| == |log| && forall i :: 0 <= i < |codes| ==> CodeOk(codes[i])
    ensures AttemptsOn(log, codes, phone, day) <= MAX_ATTEMPTS * Count(log, OnDay(phone, day))
  {
    if log != [] {
      var n := |log| - 1;
      AttemptsBounded(log[..n], codes[..n], phone, day);
    }
  }

  lemma {:induction false} AttemptsUpdate(log: seq<Message>, codes: seq<CodeState>, id: nat, c: CodeState, phone: string, day: int)
    requires |codes| == |log| && id < |codes|
    ensures AttemptsOn(log, codes[id := c], phone, day)
         == AttemptsOn(log, codes, phone, day) + if OnDay(phone, day)(log[id]) then c.attempts - codes[id].attempts else 0
  {
    var n := |log| - 1;
    if id < n {
      AttemptsUpdate(log[..n], codes[..n], id, c, phone, day);
      assert codes[id := c][..n] == codes[..n][id := c];
    } else {
      assert codes[id := c][..n] == codes[..n];
    }
  }

  /** The outcome is a wrong guess at a code that `log` has for the phone on the day. */
  predicate WrongOn(log: seq<Message>, outcome: Outcome, phone: string, day: int) {
    outcome.WrongCode? && outcome.id < |log| && OnDay(phone, day)(log[outcome.id])
  }

  function WrongGuesses(log: seq<Message>, outcomes: seq<Outcome>, phone: string, day: int): nat {
    if outcomes == [] then 0 else
      (if WrongOn(log, outcomes[0], phone, day) then 1 else 0) + WrongGuesses(log, outcomes[1..], phone, day)
  }

  lemma AppendedAttempts(log: seq<Message>, codes: seq<CodeState>, m: Message, phone: string, day: int)
    requires |codes| == |log|
    ensures AttemptsOn(log + [m], codes + [CodeState(0, false)], phone, day) == AttemptsOn(log, codes, phone, day)
  {
    assert (log + [m])[..|log|] == log && (codes + [CodeState(0, false)])[..|log|] == codes;
  }

  /** Only a verification can say that a guess was wrong, and only `Finish` and `Verify`
      touch the log and its codes. */
  lemma OthersLeaveCodes(s: State, e: Event)
    requires |s.codes| == |s.log|
    ensures !e.Verify? ==> !Step(s, e).1.WrongCode?
    ensures !e.Verify? && !e.Finish? ==> Step(s, e).0.log == s.log && Step(s, e).0.codes == s.codes
  {
  }

  lemma VerifyAttempts(s: State, e: Event, phone: string, day: int)
    requires Invariant(s) && e.Verify?
    ensures var (s', outcome) := Step(s, e);
            AttemptsOn(s'.log, s'.codes, phone, day)
            == AttemptsOn(s.log, s.codes, phone, day) + if WrongOn(s'.log, outcome, phone, day) then 1 else 0
  {
    var normal := NormalizePhone(e.phone);
    if normal.Some? && Latest(s.log, normal.value, e.purpose).Some? {
      var id := Latest(s.log, normal.value, e.purpose).value;
      AttemptsUpdate(s.log, s.codes, id, Judge(s.log[id], s.codes[id], id, e.code, e.now).0, phone, day);
    }
  }

  /** Each wrong guess is recorded as one attempt, and nothing else is. */
  lemma StepAttempts(s: State, e: Event, phone: string, day: int)
    requires Invariant(s)
    ensures var (s', outcome) := Step(s, e);
            AttemptsOn(s'.log, s'.codes, phone, day)
            == AttemptsOn(s.log, s.codes, phone, day) + if WrongOn(s'.log, outcome, phone, day) then 1 else 0
  {
    OthersLeaveCodes(s, e);
    if e.Verify? {
      VerifyAttempts(s, e, phone, day);
    } else if e.Finish? && s.sending.Some? && e.delivered {
      AppendedAttempts(s.log, s.codes, s.sending.value, phone, day);
    }
  }

  lemma {:induction false} RunAttempts(s: State, run: seq<Event>, phone: string, day: int)
    requires Invariant(s)
    ensures var end := Run(s, run);
            AttemptsOn(end.log, end.codes, phone, day)
            == AttemptsOn(s.log, s.codes, phone, day) + WrongGuesses(end.log, Outcomes(s, run), phone, day)
    decreases |run|
  {
    if run != [] {
      var (s', outcome) := Step(s, run[0]);
      StepKeepsInvariant(s, run[0]);
      StepAttempts(s, run[0], phone, day);
      RunAttempts(s', run[1..], phone, day);
      RunGrows(s', run[1..]);
      WrongInLog(s, run[0]);
      assert Outcomes(s, run)[1..] == Outcomes(s', run[1..]);
    }
  }

  lemma WrongInLog(s: State, e: Event)
    requires Invariant(s)
    ensures Step(s, e).1.WrongCode? ==> Step(s, e).1.id < |Step(s, e).0.log|
  {
  }

  /** The codes sent to a phone on one calendar day in UTC+8 absorb at most 30 wrong
      guesses, over any run. */
  lemma WrongGuessesBounded(run: seq<Event>, phone: string, day: int)
    ensures WrongGuesses(Run(INITIAL, run).log, Outcomes(INITIAL, run), phone, day) <= 30
  {
    var end := Run(INITIAL, run);
    Reachable(run);
    RunAttempts(INITIAL, run, phone, day);
    AttemptsBounded(end.log, end.codes, phone, day);
    DailyBound(end.log, phone, day);
  }
}
