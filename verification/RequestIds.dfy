/**
 The replay cache of encrypted requests (internal/service/request_crypto.go): the
 checks of `Decrypt` that come before the cryptography, and `markRequestID`.

 `Decrypt` reads the clock once before it waits for the mutex (`at`) and
 `markRequestID` reads it again while holding the mutex (`checked`); the deadline
 stored for an id comes from the first reading and is tested against the second.
 Times are nanoseconds, envelope stamps are milliseconds of the Unix epoch.
 */
module RequestIds {
  import opened Text

  const WINDOW := 120_000_000_000
  const ENVELOPE_VERSION := 1
  const ALGORITHM := "RSA-OAEP-256+A256GCM"
  /** The stamp for which Go's `time.Time` is the zero time. */
  const ZERO_STAMP := -62_135_596_800_000

  datatype Envelope = Envelope(version: int, algorithm: string, keyID: string, path: string,
                               requestID: string, timestamp: int)
  {
    function Stamp(): int { timestamp * 1_000_000 }

    predicate Addressed(keyID: string, path: string) {
      version == ENVELOPE_VERSION && algorithm == ALGORITHM && this.keyID == keyID
      && this.path == path && TrimSpace(requestID) != ""
    }

    /** The timestamp is at most two minutes away from `now`, on either side. */
    predicate Timely(now: int) {
      timestamp != ZERO_STAMP && -WINDOW <= now - Stamp() <= WINDOW
    }
  }

  datatype Verdict = BadKeyVersion | BadPathOrID | Outdated | Replayed | Passed

  /** Seen ids with the deadline up to which they are remembered. */
  type Cache = map<string, int>

  function Live(seen: Cache, now: int): Cache {
    map id | id in seen && now <= seen[id] :: seen[id]
  }

  function Marked(seen: Cache, id: string, expires: int, now: int): Cache {
    var live := Live(seen, now);
    if id in live then live else live[id := expires]
  }

  class RequestCipher {
    const keyID: string
    var seen: Cache

    constructor (keyID: string)
      ensures this.keyID == keyID && seen == map[]
    {
      this.keyID := keyID;
      seen := map[];
    }

    method MarkRequestID(id: string, expires: int, now: int) returns (unused: bool)
      modifies this
      ensures seen == Marked(old(seen), id, expires, now)
      ensures unused <==> !(id in old(seen) && now <= old(seen)[id])
    {
      var todo := seen.Keys;
      while todo != {}
        invariant todo <= seen.Keys
        invariant seen == map key | key in old(seen) && (key in todo || now <= old(seen)[key]) :: old(seen)[key]
        decreases todo
      {
        var key :| key in todo;
        todo := todo - {key};
        if now > seen[key] {
          seen := seen - {key};
        }
      }
      if id in seen {
        return false;
      }
      seen := seen[id := expires];
      return true;
    }

    /** The part of `Decrypt` before the key is unwrapped; an id that passes stays
        marked whatever the cryptography says afterwards. */
    method Decrypt(path: string, envelope: Envelope, at: int, checked: int) returns (verdict: Verdict)
      modifies this
      ensures seen == Step(keyID, old(seen), Call(path, envelope, at, checked)).0
      ensures verdict == Step(keyID, old(seen), Call(path, envelope, at, checked)).1
    {
      if envelope.version != ENVELOPE_VERSION || envelope.algorithm != ALGORITHM || envelope.keyID != keyID {
        return BadKeyVersion;
      }
      if envelope.path != path || TrimSpace(envelope.requestID) == "" {
        return BadPathOrID;
      }
      var stamp := envelope.Stamp();
      if envelope.timestamp == ZERO_STAMP || at - stamp > WINDOW || stamp - at > WINDOW {
        return Outdated;
      }
      var accepted := MarkRequestID(envelope.requestID, at + WINDOW, checked);
      return if accepted then Passed else Replayed;
    }
  }

  datatype Call = Call(path: string, envelope: Envelope, at: int, checked: int)

  /** The checks before the cache. */
  function Gate(keyID: string, c: Call): Verdict {
    var e := c.envelope;
    if e.version != ENVELOPE_VERSION || e.algorithm != ALGORITHM || e.keyID != keyID then BadKeyVersion
    else if e.path != c.path || TrimSpace(e.requestID) == "" then BadPathOrID
    else if !e.Timely(c.at) then Outdated
    else Passed
  }

  function Step(keyID: string, seen: Cache, c: Call): (Cache, Verdict) {
    var id := c.envelope.requestID;
    if Gate(keyID, c) != Passed then (seen, Gate(keyID, c))
    else (Marked(seen, id, c.at + WINDOW, c.checked), if id in Live(seen, c.checked) then Replayed else Passed)
  }

  // ---------------------------------------------------------------- runs

  /** The cache after a run that starts empty, together with the calls that passed, in
      order and never purged. */
  function Run(keyID: string, run: seq<Call>): (Cache, seq<Call>)
    decreases |run|
  {
    if run == [] then (map[], []) else
      var (seen, log) := Run(keyID, run[..|run| - 1]);
      var c := run[|run| - 1];
      var (seen', verdict) := Step(keyID, seen, c);
      (seen', if verdict == Passed then log + [c] else log)
  }

  /** The readings taken under the mutex never go back, and are not older than `Decrypt`'s own. */
  ghost predicate ClockNeverBack(run: seq<Call>) {
    && (forall i, j :: 0 <= i < j < |run| ==> run[i].checked <= run[j].checked)
    && (forall i :: 0 <= i < |run| ==> run[i].at <= run[i].checked)
  }

  /** The log holds an acceptance of `id` that is at most two minutes old at `now`. */
  ghost predicate RecentlyPassed(log: seq<Call>, id: string, now: int) {
    exists i :: 0 <= i < |log| && log[i].envelope.requestID == id && now - log[i].at <= WINDOW
  }

  /** The cache that never purges: each id with the deadline of its last acceptance. */
  function Deadlines(log: seq<Call>): Cache {
    if log == [] then map[] else
      var c := log[|log| - 1];
      Deadlines(log[..|log| - 1])[c.envelope.requestID := c.at + WINDOW]
  }

  lemma DeadlinesAppend(log: seq<Call>, c: Call)
    ensures Deadlines(log + [c]) == Deadlines(log)[c.envelope.requestID := c.at + WINDOW]
  {
    assert (log + [c])[..|log|] == log;
  }

  lemma AgreesLater(seen: Cache, full: Cache, now: int, later: int)
    requires Live(seen, now) == Live(full, now) && now <= later
    ensures Live(seen, later) == Live(full, later)
  {
    forall k ensures k in Live(seen, later) <==> k in Live(full, later) {
      assert k in Live(seen, now) <==> k in Live(full, now);
    }
    forall k | k in Live(seen, later) ensures seen[k] == full[k] {
      assert Live(seen, now)[k] == Live(full, now)[k];
    }
  }

  lemma MarkedAgrees(seen: Cache, full: Cache, id: string, expires: int, now: int)
    requires Live(seen, now) == Live(full, now)
    ensures Live(Live(seen, now), now) == Live(full, now)
    ensures Live(Live(seen, now)[id := expires], now) == Live(full[id := expires], now)
  {
    var a, b := Live(Live(seen, now)[id := expires], now), Live(full[id := expires], now);
    forall k ensures k in a <==> k in b {
      assert k in Live(seen, now) <==> k in Live(full, now);
    }
    forall k | k in a ensures a[k] == b[k] {
      assert k != id ==> k in Live(full, now) && Live(seen, now)[k] == Live(full, now)[k];
    }
  }

  lemma StepAgrees(keyID: string, seen: Cache, log: seq<Call>, c: Call)
    requires Live(seen, c.checked) == Live(Deadlines(log), c.checked)
    ensures var (seen', verdict) := Step(keyID, seen, c);
            Live(seen', c.checked) == Live(Deadlines(if verdict == Passed then log + [c] else log), c.checked)
  {
    MarkedAgrees(seen, Deadlines(log), c.envelope.requestID, c.at + WINDOW, c.checked);
    if Gate(keyID, c) == Passed && c.envelope.requestID !in Live(seen, c.checked) {
      DeadlinesAppend(log, c);
    }
  }

  lemma ClockPrefix(run: seq<Call>)
    requires run != [] && ClockNeverBack(run)
    ensures var prefix := run[..|run| - 1];
            ClockNeverBack(prefix)
            && (prefix != [] ==> prefix[|prefix| - 1].checked <= run[|run| - 1].checked)
  {
  }

  /** Purging is invisible: from `now` on the cache and the full log remember the same ids. */
  lemma {:induction false} RunAgrees(keyID: string, run: seq<Call>, now: int)
    requires ClockNeverBack(run)
    requires run != [] ==> run[|run| - 1].checked <= now
    ensures Live(Run(keyID, run).0, now) == Live(Deadlines(Run(keyID, run).1), now)
    decreases |run|
  {
    if run != [] {
      var n := |run| - 1;
      ClockPrefix(run);
      RunAgrees(keyID, run[..n], run[n].checked);
      StepAgrees(keyID, Run(keyID, run[..n]).0, Run(keyID, run[..n]).1, run[n]);
      AgreesLater(Run(keyID, run).0, Deadlines(Run(keyID, run).1), run[n].checked, now);
    }
  }

  /** What every acceptance log satisfies: each entry was timely, and the mutex was taken
      for a second acceptance of an id only after the first one's two minutes. */
  ghost predicate Spaced(log: seq<Call>) {
    && (forall i :: 0 <= i < |log| ==> log[i].envelope.Timely(log[i].at))
    && (forall i, j :: 0 <= i < j < |log| && log[i].envelope.requestID == log[j].envelope.requestID ==>
          log[j].checked - log[i].at > WINDOW)
  }

  /** In a spaced log the last deadline of an id decides whether any acceptance is recent. */
  lemma {:induction false} LastDeadlineDecides(log: seq<Call>, id: string, now: int)
    requires Spaced(log) && forall i :: 0 <= i < |log| ==> log[i].checked <= now
    ensures id in Live(Deadlines(log), now) <==> RecentlyPassed(log, id, now)
  {
    if log != [] {
      var n := |log| - 1;
      LastDeadlineDecides(log[..n], id, now);
      if log[n].envelope.requestID == id {
        assert RecentlyPassed(log, id, now) ==> now - log[n].at <= WINDOW;
      } else {
        assert RecentlyPassed(log[..n], id, now) <==> RecentlyPassed(log, id, now);
      }
    }
  }

  lemma StepSpaced(keyID: string, seen: Cache, log: seq<Call>, c: Call)
    requires Spaced(log) && forall i :: 0 <= i < |log| ==> log[i].checked <= c.checked
    requires Live(seen, c.checked) == Live(Deadlines(log), c.checked)
    ensures Step(keyID, seen, c).1 == Passed ==> Spaced(log + [c])
  {
    LastDeadlineDecides(log, c.envelope.requestID, c.checked);
  }

  lemma {:induction false} LogSpaced(keyID: string, run: seq<Call>)
    requires ClockNeverBack(run)
    ensures Spaced(Run(keyID, run).1)
    ensures forall c :: c in Run(keyID, run).1 ==> c in run
    decreases |run|
  {
    if run != [] {
      var n := |run| - 1;
      var (seen, log) := Run(keyID, run[..n]);
      var c := run[n];
      LogSpaced(keyID, run[..n]);
      RunAgrees(keyID, run[..n], c.checked);
      assert forall i :: 0 <= i < |log| ==> log[i] in run[..n];
      StepSpaced(keyID, seen, log, c);
    }
  }

  /** After any run, a call that reaches the cache is refused exactly when the full log
      holds an acceptance of its id at most two minutes old. */
  lemma RefusedExactly(keyID: string, run: seq<Call>, c: Call)
    requires ClockNeverBack(run + [c]) && c.envelope.Addressed(keyID, c.path) && c.envelope.Timely(c.at)
    ensures Step(keyID, Run(keyID, run).0, c).1
         == if RecentlyPassed(Run(keyID, run).1, c.envelope.requestID, c.checked) then Replayed else Passed
  {
    assert run == (run + [c])[..|run|];
    assert forall i :: 0 <= i < |run| ==> (run + [c])[i] == run[i];
    assert (run + [c])[|run|] == c;
    RunAgrees(keyID, run, c.checked);
    LogSpaced(keyID, run);
    var log := Run(keyID, run).1;
    assert forall i :: 0 <= i < |log| ==> log[i] in run;
    LastDeadlineDecides(log, c.envelope.requestID, c.checked);
  }

  /** Sealed for this key, by the one algorithm there is. */
  predicate Keyed(keyID: string, e: Envelope) {
    e.version == 1 && e.algorithm == "RSA-OAEP-256+A256GCM" && e.keyID == keyID
  }

  /** Sealed for the path of the call, and not without an id. */
  predicate Placed(c: Call) {
    c.envelope.path == c.path
    && exists k :: 0 <= k < |c.envelope.requestID| && !IsSpace(c.envelope.requestID[k])
  }

  /** Whatever the cache holds, a call gets past the checks before it if and only if its
      envelope is keyed, placed and timely; each refusal is given exactly in its own case,
      the first that applies, and leaves the cache as it was. */
  lemma GateExactly(keyID: string, seen: Cache, c: Call)
    ensures var e, (seen', verdict) := c.envelope, Step(keyID, seen, c);
            var timely := e.timestamp != ZERO_STAMP
                          && c.at - e.timestamp * 1_000_000 <= 120_000_000_000
                          && e.timestamp * 1_000_000 - c.at <= 120_000_000_000;
            && (verdict == BadKeyVersion <==> !Keyed(keyID, e))
            && (verdict == BadPathOrID <==> Keyed(keyID, e) && !Placed(c))
            && (verdict == Outdated <==> Keyed(keyID, e) && Placed(c) && !timely)
            && (verdict == Passed || verdict == Replayed <==> Keyed(keyID, e) && Placed(c) && timely)
            && (verdict != Passed && verdict != Replayed ==> seen' == seen)
  {
    BlankExactly(c.envelope.requestID);
  }

  /** After any run and for every call: it passes if and only if its envelope is keyed,
      placed and timely and the full log holds no acceptance of its id at most two minutes
      old, and it is taken for a replay if and only if only the last of these fails. */
  lemma VerdictExactly(keyID: string, run: seq<Call>, c: Call)
    requires ClockNeverBack(run + [c])
    ensures var e, verdict := c.envelope, Step(keyID, Run(keyID, run).0, c).1;
            var open := Keyed(keyID, e) && Placed(c) && e.timestamp != ZERO_STAMP
                        && c.at - e.timestamp * 1_000_000 <= 120_000_000_000
                        && e.timestamp * 1_000_000 - c.at <= 120_000_000_000;
            && (verdict == Passed <==> open && !RecentlyPassed(Run(keyID, run).1, e.requestID, c.checked))
            && (verdict == Replayed <==> open && RecentlyPassed(Run(keyID, run).1, e.requestID, c.checked))
  {
    GateExactly(keyID, Run(keyID, run).0, c);
    var verdict := Step(keyID, Run(keyID, run).0, c).1;
    if verdict == Passed || verdict == Replayed {
      BlankExactly(c.envelope.requestID);
      RefusedExactly(keyID, run, c);
    }
  }

  function Passes(log: seq<Call>, e: Envelope): nat {
    if log == [] then 0 else
      Passes(log[..|log| - 1], e) + if log[|log| - 1].envelope == e then 1 else 0
  }

  lemma {:induction false} LastPass(log: seq<Call>, e: Envelope) returns (j: nat)
    requires Passes(log, e) > 0
    ensures j < |log| && log[j].envelope == e && Passes(log[..j], e) == Passes(log, e) - 1
  {
    var n := |log| - 1;
    if log[n].envelope == e {
      j := n;
    } else {
      j := LastPass(log[..n], e);
      assert log[..n][..j] == log[..j];
    }
  }

  /** A replay passes only if it stalled between its two readings for longer than the
      first acceptance lay after the envelope's stamp. */
  lemma ReplayNeedsStall(log: seq<Call>, i: nat, j: nat)
    requires Spaced(log) && i < j < |log| && log[i].envelope == log[j].envelope
    ensures log[j].checked - log[j].at > log[i].at - log[i].envelope.Stamp()
  {
    assert log[j].envelope.Timely(log[j].at);
  }

  ghost predicate NoStall(calls: seq<Call>) {
    forall i :: 0 <= i < |calls| ==> calls[i].at == calls[i].checked
  }

  lemma AtMostTwo(log: seq<Call>, e: Envelope)
    requires Spaced(log) && NoStall(log)
    ensures Passes(log, e) <= 2
  {
    if Passes(log, e) > 2 {
      var k := LastPass(log, e);
      var j := LastPass(log[..k], e);
      assert log[..k][..j] == log[..j];
      var i := LastPass(log[..j], e);
    }
  }

  lemma OnceUnlessAhead(log: seq<Call>, e: Envelope, i: nat)
    requires Spaced(log) && NoStall(log)
    requires i < |log| && log[i].envelope == e && Passes(log[..i], e) == 0 && e.Stamp() <= log[i].at
    ensures Passes(log, e) == 1
  {
    assert log[..i + 1][..i] == log[..i] && Passes(log[..i + 1], e) == 1;
    assert log[..|log|] == log;
    PassesGrow(log, e, i + 1, |log|);
    if Passes(log, e) > 1 {
      var k := LastPass(log, e);
      if k <= i {
        PassesGrow(log, e, k, i);
      } else {
        ReplayNeedsStall(log, i, k);
      }
    }
  }

  /** When no call stalls between its readings, one envelope passes at most twice, and
      only once if its stamp was not ahead of the clock at its first acceptance. */
  lemma PassesAtMostTwice(keyID: string, run: seq<Call>, e: Envelope, i: nat)
    requires ClockNeverBack(run) && NoStall(run)
    ensures Passes(Run(keyID, run).1, e) <= 2
    ensures var log := Run(keyID, run).1;
            i < |log| && log[i].envelope == e && Passes(log[..i], e) == 0 && e.Stamp() <= log[i].at
            ==> Passes(log, e) == 1
  {
    var log := Run(keyID, run).1;
    LogSpaced(keyID, run);
    assert NoStall(log) by {
      forall k | 0 <= k < |log| ensures log[k].at == log[k].checked {
        assert log[k] in run;
      }
    }
    AtMostTwo(log, e);
    if i < |log| && log[i].envelope == e && Passes(log[..i], e) == 0 && e.Stamp() <= log[i].at {
      OnceUnlessAhead(log, e, i);
    }
  }

  lemma {:induction false} PassesGrow(log: seq<Call>, e: Envelope, i: nat, j: nat)
    requires i <= j <= |log|
    ensures Passes(log[..i], e) <= Passes(log[..j], e)
    decreases j
  {
    if i < j {
      assert log[..j][..j - 1] == log[..j - 1];
      PassesGrow(log, e, i, j - 1);
    }
  }

  /** A replay whose two readings are at most `stall` apart can pass exactly when the
      first call was accepted less than `stall` after the envelope's stamp; without any
      stall, exactly when the stamp was ahead of the clock. */
  lemma ReplayExactly(keyID: string, first: Call, stall: nat)
    requires first.at <= first.checked <= first.at + stall
    requires first.envelope.Addressed(keyID, first.path) && first.envelope.Timely(first.at)
    ensures (exists second: Call ::
               && second.envelope == first.envelope && second.path == first.path
               && second.at <= second.checked <= second.at + stall && first.checked <= second.checked
               && |Run(keyID, [first, second]).1| == 2)
       <==> first.at - first.envelope.Stamp() < stall
  {
    var e := first.envelope;
    assert [first] == [first][..0] + [first] && [first][..0] == [];
    assert Run(keyID, [first]) == (map[e.requestID := first.at + WINDOW], [first]);
    forall second: Call
      ensures |Run(keyID, [first, second]).1| == 2
         <==> Step(keyID, map[e.requestID := first.at + WINDOW], second).1 == Passed
    {
      assert [first, second][..1] == [first];
    }
    if first.at - e.Stamp() < stall {
      var second := first.(at := e.Stamp() + WINDOW, checked := e.Stamp() + WINDOW + stall);
      assert |Run(keyID, [first, second]).1| == 2;
    }
  }
}
