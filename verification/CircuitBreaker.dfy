/** The circuit breaker over whole runs, described by the events alone, and `with_retry`. */
module CircuitBreaking {

  datatype Event = Success | Failure(at: real)
  datatype Option<T> = None | Some(value: T)

  /** A threshold below one trips on every failure, as one does. */
  ghost function Limit(threshold: int): (limit: nat)
    ensures threshold >= 1 ==> limit == threshold
    ensures threshold <= 1 ==> limit == 1
  {
    if threshold < 1 then 1 else threshold
  }

  /** Failures since the last success. */
  ghost function Streak(events: seq<Event>): nat {
    if events == [] || events[|events| - 1].Success? then 0 else Streak(events[..|events| - 1]) + 1
  }

  /** The last event trips the breaker: every `limit`-th failure of a streak does. */
  ghost predicate Trips(events: seq<Event>, limit: nat)
    requires limit > 0
  {
    events != [] && events[|events| - 1].Failure? && Streak(events) % limit == 0
  }

  ghost function TripCount(events: seq<Event>, limit: nat): nat
    requires limit > 0
  {
    if events == [] then 0
    else TripCount(events[..|events| - 1], limit) + (if Trips(events, limit) then 1 else 0)
  }

  ghost function LastTrip(events: seq<Event>, limit: nat): Option<real>
    requires limit > 0
  {
    if events == [] then None
    else if Trips(events, limit) then Some(events[|events| - 1].at)
    else LastTrip(events[..|events| - 1], limit)
  }

  ghost function FailureCount(events: seq<Event>): nat {
    if events == [] then 0
    else FailureCount(events[..|events| - 1]) + (if events[|events| - 1].Failure? then 1 else 0)
  }

  lemma ScaleAtLeast(k: int, d: nat)
    requires k >= 1
    ensures k * d >= d
  {
    assert (k - 1) * d >= 0;
    assert (k - 1) * d == k * d - d;
  }

  lemma QuotientUnique(n: nat, d: nat, q: nat, r: nat)
    requires d > 0 && r < d && n == q * d + r
    ensures n / d == q && n % d == r
  {
    var p, s := n / d, n % d;
    assert n == p * d + s;
    assert (p - q) * d == p * d - q * d == r - s;
    assert (q - p) * d == s - r;
    if p > q { ScaleAtLeast(p - q, d); }
    if p < q { ScaleAtLeast(q - p, d); }
  }

  lemma NextQuotient(n: nat, limit: nat)
    requires limit > 0
    ensures (n + 1) % limit == if n % limit + 1 == limit then 0 else n % limit + 1
    ensures (n + 1) / limit == if n % limit + 1 == limit then n / limit + 1 else n / limit
  {
    var q, r := n / limit, n % limit;
    assert n == q * limit + r;
    if r + 1 == limit {
      assert (q + 1) * limit == q * limit + limit;
      QuotientUnique(n + 1, limit, q + 1, 0);
    } else {
      QuotientUnique(n + 1, limit, q, r + 1);
    }
  }

  /** Each trip uses up `limit` failures that no other trip uses. */
  lemma {:induction false} TripsCostFailures(events: seq<Event>, limit: nat)
    requires limit > 0
    ensures TripCount(events, limit) * limit + Streak(events) % limit <= FailureCount(events)
  {
    if events == [] {
      QuotientUnique(0, limit, 0, 0);
    } else {
      var front := events[..|events| - 1];
      TripsCostFailures(front, limit);
      if events[|events| - 1].Failure? {
        NextQuotient(Streak(front), limit);
        OneMoreTrip(TripCount(front, limit), limit);
      } else {
        QuotientUnique(0, limit, 0, 0);
      }
    }
  }

  lemma OneMoreTrip(trips: nat, limit: nat)
    ensures (trips + 1) * limit == trips * limit + limit
  {
  }

  /** In a run of failures only, there is a trip for every full `limit` of them. */
  lemma {:induction false} UnbrokenFailuresTrip(events: seq<Event>, limit: nat)
    requires limit > 0 && forall i :: 0 <= i < |events| ==> events[i].Failure?
    ensures Streak(events) == |events|
    ensures TripCount(events, limit) == |events| / limit
  {
    if events == [] {
      QuotientUnique(0, limit, 0, 0);
    } else {
      var n := |events| - 1;
      UnbrokenFailuresTrip(events[..n], limit);
      NextQuotient(n, limit);
    }
  }

  // ---- when the breaker is open ---------------------------------------------------------------

  ghost predicate Ascending(events: seq<Event>) {
    forall i, j :: 0 <= i <= j < |events| && events[i].Failure? && events[j].Failure? ==> events[i].at <= events[j].at
  }

  ghost predicate TripAt(events: seq<Event>, limit: nat, i: nat)
    requires limit > 0 && i < |events|
  {
    Trips(events[..i + 1], limit)
  }

  ghost function OpenUntil(events: seq<Event>, limit: nat, cooldown: real): real
    requires limit > 0
  {
    match LastTrip(events, limit)
    case None => 0.0
    case Some(t) => t + cooldown
  }

  /** The last trip is the latest event that tripped the breaker. */
  lemma {:induction false} LastTripIsLatest(events: seq<Event>, limit: nat) returns (k: int)
    requires limit > 0
    ensures -1 <= k < |events| && forall i :: k < i < |events| ==> !TripAt(events, limit, i)
    ensures k >= 0 ==> TripAt(events, limit, k) && events[k].Failure?
    ensures LastTrip(events, limit) == if k < 0 then None else Some(events[k].at)
  {
    if events == [] {
      k := -1;
    } else {
      var n := |events| - 1;
      var front := events[..n];
      assert events[..n + 1] == events;
      if Trips(events, limit) {
        k := n;
      } else {
        k := LastTripIsLatest(front, limit);
        forall i | 0 <= i < n ensures TripAt(events, limit, i) <==> TripAt(front, limit, i) {
          assert front[..i + 1] == events[..i + 1];
        }
      }
    }
  }

  lemma TripIsFailure(events: seq<Event>, limit: nat, i: nat)
    requires limit > 0 && i < |events| && TripAt(events, limit, i)
    ensures events[i].Failure?
  {
    assert events[..i + 1][i] == events[i];
  }

  /** Calls are refused exactly while some trip lies less than the cooldown back: the failures
      and successes that came in between make no difference. */
  lemma OpenWhileRecentTrip(events: seq<Event>, limit: nat, cooldown: real, now: real)
    requires limit > 0 && Ascending(events) && now >= 0.0
    ensures now < OpenUntil(events, limit, cooldown) <==>
            exists i :: 0 <= i < |events| && TripAt(events, limit, i) && now < events[i].at + cooldown
  {
    var k := LastTripIsLatest(events, limit);
    forall i | 0 <= i < |events| && TripAt(events, limit, i) ensures 0 <= i <= k && events[i].at <= events[k].at {
      TripIsFailure(events, limit, i);
      TripIsFailure(events, limit, k);
    }
  }

  /** A success changes neither the trips nor when calls are allowed again. */
  lemma SuccessNeverCloses(events: seq<Event>, limit: nat, cooldown: real)
    requires limit > 0
    ensures OpenUntil(events + [Success], limit, cooldown) == OpenUntil(events, limit, cooldown)
    ensures TripCount(events + [Success], limit) == TripCount(events, limit)
  {
    assert (events + [Success])[..|events|] == events;
  }

  /** What the two fields hold after the events: the failures of the streak that no trip has
      used, and the end of the last cooldown. */
  ghost predicate Tracks(events: seq<Event>, limit: nat, cooldown: real, failures: int, openUntil: real)
    requires limit > 0
  {
    failures == Streak(events) % limit && openUntil == OpenUntil(events, limit, cooldown)
  }

  /** The event starts the count over: a success, or a trip. */
  ghost predicate Resets(events: seq<Event>, limit: nat, i: nat)
    requires limit > 0 && i < |events|
  {
    events[i].Success? || TripAt(events, limit, i)
  }

  /** The count is the number of failures since the later of the last success and the last trip:
      event k is the latest of either, and everything after it is a failure. */
  lemma {:induction false} CountSinceReset(events: seq<Event>, limit: nat) returns (k: int)
    requires limit > 0
    ensures -1 <= k < |events| && (k >= 0 ==> Resets(events, limit, k))
    ensures forall i :: k < i < |events| ==> events[i].Failure? && !Resets(events, limit, i)
    ensures Streak(events) % limit == |events| - 1 - k
  {
    var n := |events| - 1;
    if events == [] {
      QuotientUnique(0, limit, 0, 0);
      k := -1;
    } else {
      assert events[..n + 1] == events;
      if Resets(events, limit, n) {
        QuotientUnique(0, limit, 0, 0);
        k := n;
      } else {
        var front := events[..n];
        k := CountSinceReset(front, limit);
        NextQuotient(Streak(front), limit);
        forall i | 0 <= i < n ensures Resets(events, limit, i) <==> Resets(front, limit, i) {
          ResetsInFront(events, limit, i);
        }
        hide Resets, Trips;
      }
    }
  }

  lemma ResetsInFront(events: seq<Event>, limit: nat, i: nat)
    requires limit > 0 && i < |events| - 1
    ensures Resets(events, limit, i) <==> Resets(events[..|events| - 1], limit, i)
  {
    assert events[..|events| - 1][..i + 1] == events[..i + 1];
  }

  /** One failure more: the count goes up, or the breaker trips and the count starts over. */
  lemma FailureStep(events: seq<Event>, limit: nat, cooldown: real, failures: int, openUntil: real, now: real)
    requires limit > 0 && Tracks(events, limit, cooldown, failures, openUntil)
    ensures failures + 1 >= limit ==> Tracks(events + [Failure(now)], limit, cooldown, 0, now + cooldown)
    ensures failures + 1 < limit ==> Tracks(events + [Failure(now)], limit, cooldown, failures + 1, openUntil)
    ensures 0 <= failures < limit
  {
    assert (events + [Failure(now)])[..|events|] == events;
    NextQuotient(Streak(events), limit);
  }

  lemma SuccessStep(events: seq<Event>, limit: nat, cooldown: real, failures: int, openUntil: real)
    requires limit > 0 && Tracks(events, limit, cooldown, failures, openUntil)
    ensures Tracks(events + [Success], limit, cooldown, 0, openUntil)
  {
    SuccessNeverCloses(events, limit, cooldown);
    QuotientUnique(0, limit, 0, 0);
  }

  class CircuitBreaker {
    const threshold: int
    const cooldown: real
    var failures: int
    var openUntil: real
    /** Everything recorded so far. */
    ghost var events: seq<Event>

    ghost predicate Valid()
      reads this
    {
      Tracks(events, Limit(threshold), cooldown, failures, openUntil) && Ascending(events)
    }

    constructor (threshold: int, cooldown: real)
      ensures Valid() && events == [] && this.threshold == threshold && this.cooldown == cooldown
    {
      this.threshold := threshold;
      this.cooldown := cooldown;
      failures := 0;
      openUntil := 0.0;
      events := [];
      new;
      QuotientUnique(0, Limit(threshold), 0, 0);
    }

    method Allow(now: real) returns (ok: bool)
      requires Valid() && now >= 0.0
      ensures ok <==>
        !exists i :: 0 <= i < |events| && TripAt(events, Limit(threshold), i) && now < events[i].at + cooldown
    {
      OpenWhileRecentTrip(events, Limit(threshold), cooldown, now);
      if now < openUntil {
        return false;
      }
      return true;
    }

    method RecordSuccess()
      requires Valid()
      modifies this`failures, this`events
      ensures Valid() && events == old(events) + [Success] && failures == 0
    {
      SuccessStep(events, Limit(threshold), cooldown, failures, openUntil);
      failures := 0;
      events := events + [Success];
    }

    method RecordFailure(now: real)
      requires Valid() && forall i :: 0 <= i < |events| && events[i].Failure? ==> events[i].at <= now
      modifies this`failures, this`openUntil, this`events
      ensures Valid() && events == old(events) + [Failure(now)]
      ensures failures < Limit(threshold)
    {
      FailureStep(events, Limit(threshold), cooldown, failures, openUntil, now);
      failures := failures + 1;
      if failures >= threshold {
        openUntil := now + cooldown;
        failures := 0;
      }
      events := events + [Failure(now)];
    }
  }

  // ---- with_retry ---------------------------------------------------------------------------------

  function Pow2(n: nat): nat { if n == 0 then 1 else 2 * Pow2(n - 1) }

  function Delay(i: nat, base: real, jitter: real, random: nat -> real): real {
    base * Pow2(i) as real + random(i) * jitter
  }

  ghost function TotalDelay(sleeps: seq<real>): real {
    if sleeps == [] then 0.0 else TotalDelay(sleeps[..|sleeps| - 1]) + sleeps[|sleeps| - 1]
  }

  /** The delay lies between base * p and base * p plus one jitter. */
  ghost predicate Within(delay: real, p: nat, base: real, jitter: real) {
    base * p as real <= delay <= base * p as real + jitter
  }

  lemma DelayIsWithin(i: nat, base: real, jitter: real, random: nat -> real)
    requires jitter >= 0.0 && 0.0 <= random(i) < 1.0
    ensures Within(Delay(i, base, jitter, random), Pow2(i), base, jitter)
  {
    var r := random(i);
    JitterBound(r, jitter);
    assert Delay(i, base, jitter, random) == base * Pow2(i) as real + r * jitter;
  }

  ghost predicate Waited(total: real, n: nat, p: nat, base: real, jitter: real) {
    base * (p as real - 1.0) <= total <= base * (p as real - 1.0) + n as real * jitter
  }

  lemma WaitedOneMore(total: real, n: nat, p: nat, base: real, jitter: real, delay: real)
    requires Waited(total, n, p, base, jitter) && Within(delay, p, base, jitter)
    ensures Waited(total + delay, n + 1, 2 * p, base, jitter)
  {
    var q := p as real;
    assert (2 * p) as real == q + q;
    assert base * (q + q - 1.0) == base * (q - 1.0) + base * q;
    assert (n + 1) as real == n as real + 1.0;
    assert (n as real + 1.0) * jitter == n as real * jitter + jitter;
  }

  /** Delays that double add up: n of them come to base * (2**n - 1), plus at most n jitters. */
  lemma {:induction false} DelaysAreGeometric(sleeps: seq<real>, base: real, jitter: real)
    requires forall i :: 0 <= i < |sleeps| ==> Within(sleeps[i], Pow2(i), base, jitter)
    ensures Waited(TotalDelay(sleeps), |sleeps|, Pow2(|sleeps|), base, jitter)
  {
    if sleeps != [] {
      var n := |sleeps| - 1;
      DelaysAreGeometric(sleeps[..n], base, jitter);
      WaitedOneMore(TotalDelay(sleeps[..n]), n, Pow2(n), base, jitter, sleeps[n]);
    }
  }

  /** So do the sleeps between retries, for random values from zero to one. */
  lemma SleepsAreGeometric(sleeps: seq<real>, base: real, jitter: real, random: nat -> real)
    requires forall i :: 0 <= i < |sleeps| ==> sleeps[i] == Delay(i, base, jitter, random)
    ensures jitter >= 0.0 && (forall i :: 0.0 <= random(i) < 1.0) ==>
      Waited(TotalDelay(sleeps), |sleeps|, Pow2(|sleeps|), base, jitter)
  {
    if jitter >= 0.0 && forall i :: 0.0 <= random(i) < 1.0 {
      forall i | 0 <= i < |sleeps| ensures Within(sleeps[i], Pow2(i), base, jitter) {
        DelayIsWithin(i, base, jitter, random);
      }
      DelaysAreGeometric(sleeps, base, jitter);
    }
  }

  lemma JitterBound(r: real, jitter: real)
    requires 0.0 <= r < 1.0 && jitter >= 0.0
    ensures 0.0 <= r * jitter <= jitter
  {
    assert (1.0 - r) * jitter >= 0.0;
  }

  function Rounds(attempts: int): (n: nat)
    ensures attempts >= 1 ==> n == attempts
    ensures attempts <= 1 ==> n == 1
  {
    if attempts < 1 then 1 else attempts
  }

  /** The first sleep is the base delay, each later one twice the one before, apart from the jitter of each. */
  ghost predicate Doubles(sleeps: seq<real>, base: real, jitter: real, random: nat -> real) {
    (sleeps != [] ==> sleeps[0] == base + random(0) * jitter) &&
    forall i: nat :: i < |sleeps| - 1 ==>
      sleeps[i + 1] - random(i + 1) * jitter == 2.0 * (sleeps[i] - random(i) * jitter)
  }

  lemma DelayDoubles(i: nat, base: real, jitter: real, random: nat -> real)
    ensures Delay(0, base, jitter, random) == base + random(0) * jitter
    ensures Delay(i + 1, base, jitter, random) - random(i + 1) * jitter ==
      2.0 * (Delay(i, base, jitter, random) - random(i) * jitter)
  {
    var q := Pow2(i) as real;
    assert Pow2(i + 1) as real == q + q;
    assert base * (q + q) == base * q + base * q;
  }

  lemma SleepsDouble(sleeps: seq<real>, base: real, jitter: real, random: nat -> real)
    requires forall i :: 0 <= i < |sleeps| ==> sleeps[i] == Delay(i, base, jitter, random)
    ensures Doubles(sleeps, base, jitter, random)
  {
    hide Delay;
    DelayDoubles(0, base, jitter, random);
    forall i: nat | i < |sleeps| - 1
      ensures sleeps[i + 1] - random(i + 1) * jitter == 2.0 * (sleeps[i] - random(i) * jitter)
    {
      DelayDoubles(i, base, jitter, random);
    }
  }

  lemma RetriesSlept(sleeps: seq<real>, base: real, jitter: real, random: nat -> real)
    requires forall i :: 0 <= i < |sleeps| ==> sleeps[i] == Delay(i, base, jitter, random)
    ensures Doubles(sleeps, base, jitter, random)
    ensures jitter >= 0.0 && (forall i :: 0.0 <= random(i) < 1.0) ==>
      Waited(TotalDelay(sleeps), |sleeps|, Pow2(|sleeps|), base, jitter)
  {
    hide Delay, Doubles, Waited;
    SleepsDouble(sleeps, base, jitter, random);
    SleepsAreGeometric(sleeps, base, jitter, random);
  }

  /** `with_retry`: succeeds(i) says whether the i-th call would return. The first success among
      max(1, attempts) calls is returned. Between failed calls it sleeps; after the last failed
      call it does not, unless attempts was below one. */
  method WithRetry(succeeds: nat -> bool, attempts: int, base: real, jitter: real, random: nat -> real)
    returns (ok: bool, calls: nat, sleeps: seq<real>)
    ensures 1 <= calls <= Rounds(attempts)
    ensures ok <==> exists i :: 0 <= i < Rounds(attempts) && succeeds(i)
    ensures ok ==> succeeds(calls - 1)
    ensures forall i :: 0 <= i < calls - 1 ==> !succeeds(i)
    ensures !ok ==> calls == Rounds(attempts)
    ensures Doubles(sleeps, base, jitter, random)
    ensures |sleeps| == calls - 1 <==> ok || attempts >= 1
    ensures |sleeps| == if ok || attempts >= 1 then calls - 1 else calls
    ensures jitter >= 0.0 && (forall i :: 0.0 <= random(i) < 1.0) ==>
      Waited(TotalDelay(sleeps), |sleeps|, Pow2(|sleeps|), base, jitter)
  {
    sleeps := [];
    for i := 0 to Rounds(attempts)
      invariant |sleeps| == i && (i == Rounds(attempts) ==> attempts < 1)
      invariant forall k :: 0 <= k < i ==> !succeeds(k)
      invariant forall k :: 0 <= k < |sleeps| ==> sleeps[k] == Delay(k, base, jitter, random)
    {
      if succeeds(i) {
        RetriesSlept(sleeps, base, jitter, random);
        return true, i + 1, sleeps;
      }
      if i == attempts - 1 {
        RetriesSlept(sleeps, base, jitter, random);
        return false, i + 1, sleeps;
      }
      sleeps := sleeps + [Delay(i, base, jitter, random)];
    }
    RetriesSlept(sleeps, base, jitter, random);
    return false, Rounds(attempts), sleeps;
  }
}
