/**
 The fixed-window request limiter and its background purge
 (internal/middleware/ratelimit.go).

 Times are integer nanoseconds of one monotonic clock. A request reads the clock up
 to three times while it holds the mutex, and the purge reads it once per visitor;
 every reading is an argument of the step, so nothing is assumed about the delay
 between two readings of one step.
 */
module RateLimit {
  import opened Options

  datatype Visitor = Visitor(count: nat, lastSeen: int)

  /** The readings of one request: when a missing visitor is inserted, when the age
      of the window is tested, and when an expired window is restarted. */
  datatype Readings = Readings(created: int, checked: int, renewed: int) {
    predicate Ordered() { created <= checked <= renewed }

    /** Inserting a visitor stamps it exactly as restarting an expired one would:
        either both branches read the same instant, or the new visitor expires within
        the same call and is restarted anyway. */
    predicate Prompt(window: nat) { created == renewed || checked - created > window }
  }

  /** A request from `ip`, or one pass of the purge that reads the clock at `seenAt[ip]`
      for visitor `ip` and is over at `done`. */
  datatype Event =
    | Request(ip: string, at: Readings)
    | Sweep(seenAt: map<string, int>, done: int)

  type Table = map<string, Visitor>

  function Get(t: Table, ip: string): Option<Visitor> {
    if ip in t then Some(t[ip]) else None
  }

  /** The visitor after one request: inserted if missing, restarted if its window is
      over, then counted. */
  function Touched(window: nat, v: Option<Visitor>, at: Readings): Visitor {
    var found := if v.Some? then v.value else Visitor(0, at.created);
    var current := if at.checked - found.lastSeen > window then Visitor(0, at.renewed) else found;
    current.(count := current.count + 1)
  }

  predicate Expired(window: nat, v: Visitor, now: int) { now - v.lastSeen > window }

  function Step(window: nat, t: Table, e: Event): Table {
    match e
    case Request(ip, at) => t[ip := Touched(window, Get(t, ip), at)]
    case Sweep(at, _) => map ip | ip in t && !(ip in at && Expired(window, t[ip], at[ip])) :: t[ip]
  }

  /** The verdict on a request made in state `t`. */
  predicate Admits(limit: nat, window: nat, t: Table, ip: string, at: Readings) {
    Touched(window, Get(t, ip), at).count <= limit
  }

  class RateLimiter {
    var visitors: Table
    const limit: nat
    const window: nat

    constructor (limit: nat, window: nat)
      ensures visitors == map[] && this.limit == limit && this.window == window
    {
      this.limit, this.window := limit, window;
      visitors := map[];
    }

    method Handle(ip: string, at: Readings) returns (admitted: bool)
      modifies this
      ensures visitors == Step(window, old(visitors), Request(ip, at))
      ensures admitted <==> Admits(limit, window, old(visitors), ip, at)
    {
      if ip !in visitors {
        visitors := visitors[ip := Visitor(0, at.created)];
      }
      var v := visitors[ip];
      if at.checked - v.lastSeen > window {
        v := Visitor(0, at.renewed);
      }
      v := v.(count := v.count + 1);
      visitors := visitors[ip := v];
      admitted := v.count <= limit;
    }

    method Cleanup(at: map<string, int>, ghost done: int)
      requires visitors.Keys <= at.Keys
      modifies this
      ensures visitors == Step(window, old(visitors), Sweep(at, done))
      ensures forall ip :: ip in visitors ==> !Expired(window, visitors[ip], at[ip])
    {
      var todo := visitors.Keys;
      while todo != {}
        invariant todo <= visitors.Keys
        invariant visitors == map ip | ip in old(visitors) &&
                                (ip in todo || !Expired(window, old(visitors)[ip], at[ip])) :: old(visitors)[ip]
        decreases todo
      {
        var ip :| ip in todo;
        todo := todo - {ip};
        if at[ip] - visitors[ip].lastSeen > window {
          visitors := visitors - {ip};
        }
      }
    }
  }

  // ---------------------------------------------------------------- runs

  /** All readings of the run are at least `from` and never go back. */
  ghost predicate ClockFrom(run: seq<Event>, from: int)
    decreases |run|
  {
    run == [] ||
    match run[0]
    case Request(_, at) => from <= at.created && at.Ordered() && ClockFrom(run[1..], at.renewed)
    case Sweep(at, done) =>
      from <= done && (forall ip :: ip in at ==> from <= at[ip] <= done) && ClockFrom(run[1..], done)
  }

  /** How many requests of `ip` tested at a time in the closed interval [lo, hi] are admitted. */
  function Admitted(limit: nat, window: nat, t: Table, run: seq<Event>, ip: string, lo: int, hi: int): nat
    decreases |run|
  {
    if run == [] then 0 else
      var rest := Admitted(limit, window, Step(window, t, run[0]), run[1..], ip, lo, hi);
      if run[0].Request? && run[0].ip == ip && lo <= run[0].at.checked <= hi
         && Admits(limit, window, t, ip, run[0].at)
      then rest + 1 else rest
  }

  /** How many more requests the visitor's present window admits. */
  function Left(limit: nat, v: Option<Visitor>): nat {
    if v.None? then limit else if v.value.count < limit then limit - v.value.count else 0
  }

  lemma {:induction false} NoneAfter(limit: nat, window: nat, t: Table, run: seq<Event>, from: int,
                                     ip: string, lo: int, hi: int)
    requires ClockFrom(run, from) && hi < from
    ensures Admitted(limit, window, t, run, ip, lo, hi) == 0
    decreases |run|
  {
    if run != [] {
      var next := if run[0].Request? then run[0].at.renewed else run[0].done;
      NoneAfter(limit, window, Step(window, t, run[0]), run[1..], next, ip, lo, hi);
    }
  }

  /** A window that outlasts `hi` admits what is left of it and nothing else counts. */
  lemma {:induction false} WithinOneWindow(limit: nat, window: nat, t: Table, run: seq<Event>, from: int,
                                           ip: string, lo: int, hi: int)
    requires ClockFrom(run, from)
    requires ip in t && hi <= t[ip].lastSeen + window
    ensures Admitted(limit, window, t, run, ip, lo, hi) <= Left(limit, Get(t, ip))
    decreases |run|
  {
    if run != [] {
      var t' := Step(window, t, run[0]);
      var next := if run[0].Request? then run[0].at.renewed else run[0].done;
      if ip in t' && t'[ip].lastSeen == t[ip].lastSeen {
        WithinOneWindow(limit, window, t', run[1..], next, ip, lo, hi);
      } else {
        NoneAfter(limit, window, t', run[1..], next, ip, lo, hi);
      }
    }
  }

  /** A window that is still open at or after `lo`, or an absent visitor once `lo` is
      reached, is followed by at most one more window inside [lo, hi]. */
  lemma {:induction false} WithinTwoWindows(limit: nat, window: nat, t: Table, run: seq<Event>, from: int,
                                            ip: string, lo: int, hi: int)
    requires ClockFrom(run, from) && hi <= lo + window
    requires ip in t ==> lo <= t[ip].lastSeen + window
    requires ip !in t ==> lo <= from
    ensures Admitted(limit, window, t, run, ip, lo, hi)
         <= Left(limit, Get(t, ip)) + if ip in t then limit else 0
    decreases |run|
  {
    if run != [] {
      var t' := Step(window, t, run[0]);
      var next := if run[0].Request? then run[0].at.renewed else run[0].done;
      if ip in t' && (ip !in t || t'[ip].count == 1) {
        if t'[ip].lastSeen + window >= hi {
          WithinOneWindow(limit, window, t', run[1..], next, ip, lo, hi);
        } else {
          WithinTwoWindows(limit, window, t', run[1..], next, ip, lo, hi);
        }
      } else {
        WithinTwoWindows(limit, window, t', run[1..], next, ip, lo, hi);
      }
    }
  }

  /** Any closed interval no longer than the window holds at most twice the limit of
      admitted requests from one address, from any table and with purges anywhere. */
  lemma {:induction false} WindowBound(limit: nat, window: nat, t: Table, run: seq<Event>, from: int,
                                       ip: string, lo: int, hi: int)
    requires ClockFrom(run, from) && hi <= lo + window
    ensures Admitted(limit, window, t, run, ip, lo, hi) <= 2 * limit
    decreases |run|
  {
    if run != [] {
      var t' := Step(window, t, run[0]);
      var next := if run[0].Request? then run[0].at.renewed else run[0].done;
      if run[0].Request? && run[0].ip == ip && lo <= run[0].at.checked {
        WithinTwoWindows(limit, window, t', run[1..], next, ip, lo, hi);
      } else {
        WindowBound(limit, window, t', run[1..], next, ip, lo, hi);
      }
    }
  }

  // ---------------------------------------------------------------- no refusal without cause

  /** How many requests of `ip`, admitted or not, have their last reading at `since` or later. */
  function Requests(run: seq<Event>, ip: string, since: int): nat {
    if run == [] then 0 else
      var e := run[|run| - 1];
      Requests(run[..|run| - 1], ip, since) + (if e.Request? && e.ip == ip && e.at.renewed >= since then 1 else 0)
  }

  lemma {:induction false} RequestsMonotone(run: seq<Event>, ip: string, since: int, earlier: int)
    requires earlier <= since
    ensures Requests(run, ip, since) <= Requests(run, ip, earlier)
  {
    if run != [] {
      RequestsMonotone(run[..|run| - 1], ip, since, earlier);
    }
  }

  function TableAfter(window: nat, run: seq<Event>): Table {
    if run == [] then map[] else Step(window, TableAfter(window, run[..|run| - 1]), run[|run| - 1])
  }

  lemma {:induction false} ClockOrdersRequests(run: seq<Event>, from: int)
    requires ClockFrom(run, from)
    ensures forall i :: 0 <= i < |run| && run[i].Request? ==> from <= run[i].at.created && run[i].at.Ordered()
    ensures forall i, j :: 0 <= i < j < |run| && run[i].Request? && run[j].Request? ==> run[i].at.renewed <= run[j].at.created
    decreases |run|
  {
    if run != [] {
      ClockOrdersRequests(run[1..], if run[0].Request? then run[0].at.renewed else run[0].done);
      assert forall i :: 0 < i < |run| ==> run[i] == run[1..][i - 1];
    }
  }

  /** What a visitor has counted are requests made since its window began. */
  lemma {:induction false} CountIsBacked(window: nat, run: seq<Event>, ip: string, now: int)
    requires forall i :: 0 <= i < |run| && run[i].Request? ==> run[i].at.Ordered() && run[i].at.renewed <= now
    requires forall i, j :: 0 <= i < j < |run| && run[i].Request? && run[j].Request? ==> run[i].at.renewed <= run[j].at.created
    ensures var t := TableAfter(window, run); ip in t ==> t[ip].count <= Requests(run, ip, t[ip].lastSeen) && t[ip].lastSeen <= now
  {
    if run != [] {
      var n := |run| - 1;
      CountIsBacked(window, run[..n], ip, if run[n].Request? then run[n].at.created else now);
    }
  }

  /** The converse of the bound: after any run, whatever was purged, a request is refused
      only if its address made at least `limit` requests within the last window. */
  lemma RefusedOnlyOverLimit(limit: nat, window: nat, run: seq<Event>, from: int, ip: string, at: Readings)
    requires limit > 0 && ClockFrom(run + [Request(ip, at)], from)
    ensures !Admits(limit, window, TableAfter(window, run), ip, at) ==>
              Requests(run, ip, at.checked - window) >= limit
  {
    var all := run + [Request(ip, at)];
    ClockOrdersRequests(all, from);
    assert forall i :: 0 <= i < |run| ==> run[i] == all[i];
    assert all[|run|] == Request(ip, at);
    var t := TableAfter(window, run);
    CountIsBacked(window, run, ip, at.created);
    if ip in t && at.checked - window <= t[ip].lastSeen {
      RequestsMonotone(run, ip, t[ip].lastSeen, at.checked - window);
    }
  }

  /** `n` requests whose three readings are all `u`. */
  function Burst(ip: string, u: int, n: nat): seq<Event> {
    seq(n, _ => Request(ip, Readings(u, u, u)))
  }

  lemma {:induction false} BurstAdmitted(limit: nat, window: nat, t: Table, ip: string, u: int, n: nat,
                                         rest: seq<Event>, lo: int, hi: int)
    requires ip in t && !Expired(window, t[ip], u) && t[ip].count + n <= limit && lo <= u <= hi
    ensures Admitted(limit, window, t, Burst(ip, u, n) + rest, ip, lo, hi)
         == n + Admitted(limit, window, t[ip := Visitor(t[ip].count + n, t[ip].lastSeen)], rest, ip, lo, hi)
    decreases n
  {
    if n == 0 {
      assert Burst(ip, u, n) + rest == rest && t[ip := t[ip]] == t;
    } else {
      var run := Burst(ip, u, n) + rest;
      var t' := Step(window, t, run[0]);
      assert run[1..] == Burst(ip, u, n - 1) + rest;
      BurstAdmitted(limit, window, t', ip, u, n - 1, rest, lo, hi);
      assert t'[ip := Visitor(t[ip].count + n, t[ip].lastSeen)] == t[ip := Visitor(t[ip].count + n, t[ip].lastSeen)];
    }
  }

  lemma {:induction false} BurstClock(ip: string, u: int, n: nat, rest: seq<Event>)
    requires ClockFrom(rest, u)
    ensures ClockFrom(Burst(ip, u, n) + rest, u)
  {
    if n == 0 {
      assert Burst(ip, u, n) + rest == rest;
    } else {
      BurstClock(ip, u, n - 1, rest);
      assert (Burst(ip, u, n) + rest)[1..] == Burst(ip, u, n - 1) + rest;
    }
  }

  /** A visitor inserted just before the interval opens, a full window, and the next. */
  function FullInterval(limit: nat, window: nat, ip: string): seq<Event>
    requires limit > 0
  {
    [Request(ip, Readings(0, 1, 1))] + (Burst(ip, 1, limit - 1)
      + ([Request(ip, Readings(window + 1, window + 1, window + 1))] + (Burst(ip, window + 1, limit - 1) + [])))
  }

  /** The factor two is the best possible: some run fills an interval of exactly one
      window with twice the limit. */
  lemma WindowBoundReached(limit: nat, window: nat, ip: string)
    requires limit > 0 && window > 0
    ensures ClockFrom(FullInterval(limit, window, ip), 0)
    ensures Admitted(limit, window, map[], FullInterval(limit, window, ip), ip, 1, window + 1) == 2 * limit
  {
    var run := FullInterval(limit, window, ip);
    var last := Burst(ip, window + 1, limit - 1) + [];
    var second := [Request(ip, Readings(window + 1, window + 1, window + 1))] + last;
    assert second[1..] == last;
    assert run[1..] == Burst(ip, 1, limit - 1) + second;
    BurstClock(ip, window + 1, limit - 1, []);
    assert ClockFrom(second, 1);
    BurstClock(ip, 1, limit - 1, second);
    var t1 := Step(window, map[], run[0]);
    assert t1[ip] == Visitor(1, 0);
    BurstAdmitted(limit, window, t1, ip, 1, limit - 1, second, 1, window + 1);
    var t2 := t1[ip := Visitor(limit, 0)];
    var t3 := Step(window, t2, second[0]);
    assert t3[ip] == Visitor(1, window + 1);
    BurstAdmitted(limit, window, t3, ip, window + 1, limit - 1, [], 1, window + 1);
  }

  // ---------------------------------------------------------------- the purge

  /** The verdicts of the run's requests, in order. */
  function Verdicts(limit: nat, window: nat, t: Table, run: seq<Event>): seq<bool>
    decreases |run|
  {
    if run == [] then [] else
      var rest := Verdicts(limit, window, Step(window, t, run[0]), run[1..]);
      if run[0].Request? then [Admits(limit, window, t, run[0].ip, run[0].at)] + rest else rest
  }

  /** The same run against a limiter that never deletes a visitor. */
  function Unswept(run: seq<Event>): seq<Event>
    decreases |run|
  {
    if run == [] then [] else if run[0].Sweep? then Unswept(run[1..]) else [run[0]] + Unswept(run[1..])
  }

  ghost predicate PurgeUnseen(limit: nat, window: nat, run: seq<Event>) {
    Verdicts(limit, window, map[], run) == Verdicts(limit, window, map[], Unswept(run))
  }

  /** Whatever the purged table lacks is expired in the full one, from now on. */
  ghost predicate Purged(window: nat, swept: Table, full: Table, from: int) {
    && swept.Keys <= full.Keys
    && (forall ip :: ip in swept ==> swept[ip] == full[ip])
    && (forall ip :: ip in full && ip !in swept ==> Expired(window, full[ip], from))
  }

  lemma {:induction false} PurgeSimulation(limit: nat, window: nat, swept: Table, full: Table,
                                           run: seq<Event>, from: int)
    requires ClockFrom(run, from) && Purged(window, swept, full, from)
    requires forall e :: e in run && e.Request? ==> e.at.Prompt(window)
    ensures Verdicts(limit, window, swept, run) == Verdicts(limit, window, full, Unswept(run))
    decreases |run|
  {
    if run != [] {
      var e := run[0];
      assert e in run;
      var swept' := Step(window, swept, e);
      if e.Request? {
        var full' := Step(window, full, e);
        assert Unswept(run)[1..] == Unswept(run[1..]);
        PurgeSimulation(limit, window, swept', full', run[1..], e.at.renewed);
      } else {
        PurgeSimulation(limit, window, swept', full, run[1..], e.done);
      }
    }
  }

  /** The purge changes no verdict of a run whose requests all stamp promptly. */
  lemma PurgeInvisible(limit: nat, window: nat, run: seq<Event>, from: int)
    requires ClockFrom(run, from)
    requires forall e :: e in run && e.Request? ==> e.at.Prompt(window)
    ensures PurgeUnseen(limit, window, run)
  {
    PurgeSimulation(limit, window, map[], map[], run, from);
  }

  /** The last of `n` simultaneous requests is admitted exactly when the window it
      lands in still has room for all of them. */
  lemma {:induction false} BurstVerdict(limit: nat, window: nat, t: Table, ip: string, u: int, n: nat)
    requires ip in t && n > 0
    ensures |Verdicts(limit, window, t, Burst(ip, u, n))| == n
    ensures Verdicts(limit, window, t, Burst(ip, u, n))[n - 1]
        <==> (if Expired(window, t[ip], u) then 0 else t[ip].count) + n <= limit
    decreases n
  {
    var run := Burst(ip, u, n);
    var t' := Step(window, t, run[0]);
    if n == 1 {
      assert run[1..] == [];
    } else {
      assert run[1..] == Burst(ip, u, n - 1);
      BurstVerdict(limit, window, t', ip, u, n - 1);
    }
  }

  lemma {:induction false} BurstUnswept(ip: string, u: int, n: nat)
    ensures Unswept(Burst(ip, u, n)) == Burst(ip, u, n)
  {
    if n > 0 {
      assert Burst(ip, u, n)[1..] == Burst(ip, u, n - 1);
      BurstUnswept(ip, u, n - 1);
    }
  }

  /** Every request of the run is prompt, or has the readings `at`. */
  ghost predicate LateOnlyAt(window: nat, at: Readings, run: seq<Event>) {
    forall e :: e in run && e.Request? ==> e.at == at || e.at.Prompt(window)
  }

  lemma VerdictsOfFirst(limit: nat, window: nat, t: Table, e: Event, rest: seq<Event>)
    ensures Verdicts(limit, window, t, [e] + rest)
         == (if e.Request? then [Admits(limit, window, t, e.ip, e.at)] else [])
            + Verdicts(limit, window, Step(window, t, e), rest)
    ensures Unswept([e] + rest) == (if e.Request? then [e] else []) + Unswept(rest)
  {
    assert ([e] + rest)[1..] == rest;
  }

  function BurstTime(window: nat, at: Readings): int {
    if at.created + window + 1 > at.renewed then at.created + window + 1 else at.renewed
  }

  function LongAgo(window: nat, at: Readings): Event {
    var past := at.created - window - 1;
    Request("", Readings(past, past, past))
  }

  /** A visitor seen long ago is purged, comes back with the readings `at`, and then
      sends `limit` requests at once, later than `at` but within one window of it. */
  function Comeback(limit: nat, window: nat, at: Readings): seq<Event> {
    [LongAgo(window, at)] + ([Sweep(map["" := at.created], at.created)]
      + ([Request("", at)] + Burst("", BurstTime(window, at), limit)))
  }

  lemma ComebackClock(limit: nat, window: nat, at: Readings)
    requires limit > 0 && at.Ordered()
    ensures ClockFrom(Comeback(limit, window, at), at.created - window - 1)
    ensures LateOnlyAt(window, at, Comeback(limit, window, at))
  {
    var u := BurstTime(window, at);
    var burst := Burst("", u, limit);
    BurstClock("", u, limit, []);
    assert burst + [] == burst;
    assert ClockFrom(burst, at.renewed) by { assert burst[0].at.created == u; }
    var third := [Request("", at)] + burst;
    assert third[1..] == burst;
    assert ClockFrom(third, at.created);
    var second := [Sweep(map["" := at.created], at.created)] + third;
    assert second[1..] == third;
    assert ClockFrom(second, at.created - window - 1);
    assert Comeback(limit, window, at)[1..] == second;
  }

  /** What the limiter says to the last request of the burst, with the purge and without. */
  lemma ComebackVerdicts(limit: nat, window: nat, at: Readings)
    requires limit > 0 && at.Ordered() && !at.Prompt(window)
    ensures var v := Verdicts(limit, window, map[], Comeback(limit, window, at));
            |v| == limit + 2 && v[limit + 1]
    ensures var v := Verdicts(limit, window, map[], Unswept(Comeback(limit, window, at)));
            |v| == limit + 2 && !v[limit + 1]
  {
    var u := BurstTime(window, at);
    var e1, e2, e3 := LongAgo(window, at), Sweep(map["" := at.created], at.created), Request("", at);
    var burst := Burst("", u, limit);
    var t1 := Step(window, map[], e1);
    VerdictsOfFirst(limit, window, map[], e1, [e2] + ([e3] + burst));
    VerdictsOfFirst(limit, window, t1, e2, [e3] + burst);
    var t2 := Step(window, t1, e2);
    VerdictsOfFirst(limit, window, t2, e3, burst);
    var t3 := Step(window, t2, e3);
    assert t3[""] == Visitor(1, at.created);
    BurstVerdict(limit, window, t3, "", u, limit);
    BurstUnswept("", u, limit);
    VerdictsOfFirst(limit, window, map[], e1, [e3] + burst);
    VerdictsOfFirst(limit, window, t1, e3, burst);
    var k2 := Step(window, t1, e3);
    assert k2[""] == Visitor(1, at.renewed);
    BurstVerdict(limit, window, k2, "", u, limit);
  }

  /** A request that stamps its new visitor late makes the purge visible. */
  lemma PurgeVisible(limit: nat, window: nat, at: Readings)
    requires limit > 0 && at.Ordered() && !at.Prompt(window)
    ensures exists run: seq<Event>, from: int ::
              ClockFrom(run, from) && LateOnlyAt(window, at, run) && !PurgeUnseen(limit, window, run)
  {
    ComebackClock(limit, window, at);
    ComebackVerdicts(limit, window, at);
    assert !PurgeUnseen(limit, window, Comeback(limit, window, at));
  }

  /** The purge is invisible on every run whose late requests all have readings `at`
      if and only if `at` stamps promptly. */
  lemma PurgeInvisibleExactly(limit: nat, window: nat, at: Readings)
    requires limit > 0 && at.Ordered()
    ensures at.Prompt(window) <==>
            forall run: seq<Event>, from: int ::
              ClockFrom(run, from) && LateOnlyAt(window, at, run) ==> PurgeUnseen(limit, window, run)
  {
    if at.Prompt(window) {
      forall run: seq<Event>, from: int |
        ClockFrom(run, from) && LateOnlyAt(window, at, run)
        ensures PurgeUnseen(limit, window, run)
      {
        PurgeInvisible(limit, window, run, from);
      }
    } else {
      PurgeVisible(limit, window, at);
    }
  }
}
