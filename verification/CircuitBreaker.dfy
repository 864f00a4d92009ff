/** The push circuit breaker of nexus-daemon/sync.go: after three consecutive failures pushes are
    refused for fifteen minutes. Times are in nanoseconds; the end of a suspension is stored as
    RFC 3339 text, which keeps whole seconds only. */
module CircuitBreaker {
  import opened Bytes

  const SECOND: int := 1_000_000_000
  const THRESHOLD: nat := 3
  const COOLDOWN: int := 900

  function WholeSeconds(t: int): int {
    t / SECOND
  }

  /** The key-value entries push_fail_count and push_suspended_until. */
  datatype Breaker = Breaker(failCount: nat, suspendedUntil: Option<int>)

  predicate Suspended(b: Breaker, now: int) {
    b.suspendedUntil.Some? && now < b.suspendedUntil.value * SECOND
  }

  function AfterFailure(b: Breaker, now: int): Breaker {
    Breaker(b.failCount + 1,
      if b.failCount + 1 >= THRESHOLD then Some(WholeSeconds(now) + COOLDOWN) else None)
  }

  class PushBreaker {
    var failCount: nat
    var suspendedUntil: Option<int>

    ghost function State(): Breaker reads this {
      Breaker(failCount, suspendedUntil)
    }

    constructor ()
      ensures State() == Breaker(0, None)
    {
      failCount, suspendedUntil := 0, None;
    }

    /** An expired suspension is cleared. */
    method IsPushSuspended(now: int) returns (suspended: bool)
      modifies this
      ensures suspended == Suspended(old(State()), now)
      ensures suspended <==> old(suspendedUntil).Some? && now < old(suspendedUntil).value * 1_000_000_000
      ensures State() == if suspended then old(State()) else Breaker(old(failCount), None)
    {
      if suspendedUntil.None? {
        return false;
      }
      if now < suspendedUntil.value * SECOND {
        return true;
      }
      suspendedUntil := None;
      suspended := false;
    }

    method RecordPushFailure(now: int)
      requires suspendedUntil.None?
      modifies this
      ensures State() == AfterFailure(old(State()), now)
      ensures failCount == old(failCount) + 1
      ensures suspendedUntil == if failCount >= 3 then Some(now / 1_000_000_000 + 15 * 60) else None
    {
      failCount := failCount + 1;
      if failCount >= THRESHOLD {
        suspendedUntil := Some(WholeSeconds(now + COOLDOWN * SECOND));
      }
    }

    method ResetPushFailures()
      modifies this
      ensures State() == Breaker(0, None)
    {
      failCount := 0;
      suspendedUntil := None;
    }
  }

  // ------------------------------------------------------------------ runs of pushes

  /** A push asked for at `start`; if it is not refused it ends, well or not, at `end`. */
  datatype Attempt = Attempt(start: int, end: int, ok: bool)

  function Step(b: Breaker, a: Attempt): Breaker {
    if Suspended(b, a.start) then b
    else if a.ok then Breaker(0, None)
    else AfterFailure(b, a.end)
  }

  function Run(b: Breaker, attempts: seq<Attempt>): Breaker
    decreases attempts
  {
    if attempts == [] then b else Run(Step(b, attempts[0]), attempts[1..])
  }

  /** A push that fails suspends the next ones exactly if it is at least the third in a row, and
      then up to 900 seconds after the whole second in which it failed. */
  lemma SuspendsExactly(b: Breaker, end: int, start: int)
    ensures Suspended(AfterFailure(b, end), start) <==>
      b.failCount + 1 >= 3 && start < (end / 1_000_000_000 + 900) * 1_000_000_000
  {
  }

  /** The results of the attempts that were not refused. */
  function Results(b: Breaker, attempts: seq<Attempt>): seq<bool>
    decreases attempts
  {
    if attempts == [] then []
    else (if Suspended(b, attempts[0].start) then [] else [attempts[0].ok]) + Results(Step(b, attempts[0]), attempts[1..])
  }

  /** How many results at the end are failures; `before` counts those before the first result. */
  function TrailingFailures(before: nat, results: seq<bool>): nat {
    if results == [] then before
    else if results[|results| - 1] then 0
    else 1 + TrailingFailures(before, results[..|results| - 1])
  }

  lemma {:induction false} TrailingAfterFirst(before: nat, first: bool, rest: seq<bool>)
    ensures TrailingFailures(before, [first] + rest) == TrailingFailures(if first then 0 else before + 1, rest)
  {
    var all := [first] + rest;
    if rest == [] {
      assert all == [first] && all[..0] == [];
    } else {
      assert all[..|all| - 1] == [first] + rest[..|rest| - 1];
      TrailingAfterFirst(before, first, rest[..|rest| - 1]);
    }
  }

  /** Refused pushes do not count, and the counter is the number of failures since the last success. */
  lemma {:induction false} CounterIsTrailingFailures(b: Breaker, attempts: seq<Attempt>)
    ensures Run(b, attempts).failCount == TrailingFailures(b.failCount, Results(b, attempts))
    decreases attempts
  {
    if attempts != [] {
      var a := attempts[0];
      CounterIsTrailingFailures(Step(b, a), attempts[1..]);
      if Suspended(b, a.start) {
        assert [] + Results(b, attempts[1..]) == Results(b, attempts[1..]);
      } else {
        TrailingAfterFirst(b.failCount, a.ok, Results(Step(b, a), attempts[1..]));
      }
    }
  }

  // ------------------------------------------------------------------ how often a failing push is tried

  /** Pushes hold the manager's lock, so one ends before the next starts; none succeeds. */
  ghost predicate FailingWithin(attempts: seq<Attempt>, from: int, to: int) {
    if attempts == [] then true
    else
      && from <= attempts[0].start <= attempts[0].end <= to
      && !attempts[0].ok
      && FailingWithin(attempts[1..], attempts[0].end, to)
  }

  function CeilSeconds(d: int): int {
    (d + SECOND - 1) / SECOND
  }

  /** Once suspended, failures are at least fifteen minutes of whole seconds apart. */
  lemma {:induction false} FailuresSpaced(b: Breaker, attempts: seq<Attempt>, from: int, to: int, until: int)
    requires b.failCount >= THRESHOLD && b.suspendedUntil == Some(until)
    requires FailingWithin(attempts, from, to)
    ensures var n := |Results(b, attempts)|;
      n > 0 ==> WholeSeconds(to) >= until + COOLDOWN * (n - 1)
    decreases attempts
  {
    if attempts != [] {
      var a := attempts[0];
      if Suspended(b, a.start) {
        FailuresSpaced(b, attempts[1..], a.end, to, until);
        assert [] + Results(b, attempts[1..]) == Results(b, attempts[1..]);
      } else {
        FailuresSpaced(Step(b, a), attempts[1..], a.end, to, WholeSeconds(a.end) + COOLDOWN);
      }
    }
  }

  /** The first failures are free until the third. */
  lemma {:induction false} FailuresBounded(b: Breaker, attempts: seq<Attempt>, from: int, to: int)
    requires b.failCount < THRESHOLD && b.suspendedUntil == None
    requires from <= to && FailingWithin(attempts, from, to)
    ensures |Results(b, attempts)| <= THRESHOLD - b.failCount + (WholeSeconds(to) - WholeSeconds(from)) / COOLDOWN
    decreases attempts
  {
    if attempts != [] {
      var a := attempts[0];
      var after := Step(b, a);
      if after.failCount < THRESHOLD {
        FailuresBounded(after, attempts[1..], a.end, to);
      } else {
        FailuresSpaced(after, attempts[1..], a.end, to, after.suspendedUntil.value);
      }
    }
  }

  /** From a zero counter an interval of T whole seconds without a success sees at most
      3 + T / 900 failing pushes. */
  lemma FailuresInWholeSeconds(attempts: seq<Attempt>, from: int, seconds: nat)
    requires FailingWithin(attempts, from, from + seconds * SECOND)
    ensures |Results(Breaker(0, None), attempts)| <= THRESHOLD + seconds / COOLDOWN
  {
    FailuresBounded(Breaker(0, None), attempts, from, from + seconds * SECOND);
  }

  ghost predicate FailingFor(attempts: seq<Attempt>, from: int, d: nat) {
    FailingWithin(attempts, from, from + d)
  }

  ghost predicate AtMostInInterval(d: nat, bound: nat) {
    forall attempts, from :: FailingFor(attempts, from, d) ==> |Results(Breaker(0, None), attempts)| <= bound
  }

  /** The same bound for an interval of d nanoseconds holds exactly unless rounding d up to whole
      seconds completes another fifteen minutes: the stored suspension may end almost a second early. */
  lemma FailureRateExact(d: nat)
    ensures AtMostInInterval(d, THRESHOLD + d / (COOLDOWN * SECOND)) <==> CeilSeconds(d) / COOLDOWN == d / (COOLDOWN * SECOND)
  {
    forall attempts, from | FailingFor(attempts, from, d)
      ensures |Results(Breaker(0, None), attempts)| <= THRESHOLD + CeilSeconds(d) / COOLDOWN
    {
      FailuresBounded(Breaker(0, None), attempts, from, from + d);
    }
    var k := CeilSeconds(d) / COOLDOWN;
    if k != d / (COOLDOWN * SECOND) {
      var attempts, from := Burst(k), SECOND - 1;
      BurstFails(k, from + d);
      assert FailingFor(attempts, from, d);
    }
  }

  /** A failure that takes no time. */
  function Instant(t: int): Attempt {
    Attempt(t, t, false)
  }

  /** Failing pushes at the moments when the suspension is over: i, i + 1, ... times fifteen minutes. */
  function Probes(i: nat, n: nat): seq<Attempt>
    decreases n
  {
    if n == 0 then [] else [Instant(COOLDOWN * SECOND * i)] + Probes(i + 1, n - 1)
  }

  /** Three failures just before a full second, then n probes. */
  function Burst(n: nat): seq<Attempt> {
    [Instant(SECOND - 1)] + ([Instant(SECOND - 1)] + ([Instant(SECOND - 1)] + Probes(1, n)))
  }

  lemma {:induction false} ProbesFail(b: Breaker, i: nat, n: nat, from: int, to: int)
    requires b.failCount >= THRESHOLD && b.suspendedUntil == Some(COOLDOWN * i)
    requires from <= COOLDOWN * SECOND * i && (n > 0 ==> COOLDOWN * SECOND * (i + n - 1) <= to)
    ensures FailingWithin(Probes(i, n), from, to)
    ensures |Results(b, Probes(i, n))| == n
    decreases n
  {
    if n > 0 {
      var a := Instant(COOLDOWN * SECOND * i);
      assert Probes(i, n)[0] == a && Probes(i, n)[1..] == Probes(i + 1, n - 1);
      ProbesFail(Step(b, a), i + 1, n - 1, a.end, to);
    }
  }

  lemma BurstFails(n: nat, to: int)
    requires SECOND - 1 <= to && (n > 0 ==> COOLDOWN * SECOND * n <= to)
    ensures FailingWithin(Burst(n), SECOND - 1, to)
    ensures |Results(Breaker(0, None), Burst(n))| == THRESHOLD + n
  {
    hide Probes;
    var a := Instant(SECOND - 1);
    var b1, b2, b3 := Breaker(1, None), Breaker(2, None), Breaker(3, Some(COOLDOWN));
    var probes := Probes(1, n);
    ProbesFail(b3, 1, n, SECOND - 1, to);
    FailsFirst(b2, a, probes, SECOND - 1, to);
    FailsFirst(b1, a, [a] + probes, SECOND - 1, to);
    FailsFirst(Breaker(0, None), a, [a] + ([a] + probes), SECOND - 1, to);
  }

  lemma FailsFirst(b: Breaker, a: Attempt, rest: seq<Attempt>, from: int, to: int)
    requires !Suspended(b, a.start) && !a.ok && from <= a.start <= a.end <= to
    requires FailingWithin(rest, a.end, to)
    ensures FailingWithin([a] + rest, from, to)
    ensures |Results(b, [a] + rest)| == 1 + |Results(Step(b, a), rest)|
  {
    var all := [a] + rest;
    assert all[0] == a && all[1..] == rest;
  }
}
