/** The token bucket is an exact conformance test for a burst/rate envelope: it grants a
    request exactly when no window would then exceed burst + rate * length. */
module RateLimiting {

  /** One call of `take`: when it happened and how many tokens it was granted (0 if refused). */
  datatype Call = Call(at: real, granted: int)

  /** The fixed part of a limiter: how many tokens have flowed in by each time (rate * t, see
      Linear), its burst, and when it was constructed. */
  datatype Envelope = Envelope(flow: real -> real, burst: int, start: real)

  ghost function Linear(rate: real): real -> real {
    (t: real) => rate * t
  }

  /** What the calls from index i up to j were granted. */
  ghost function Granted(calls: seq<Call>, i: nat, j: nat): int
    requires i <= j <= |calls|
  {
    if i == j then 0 else Granted(calls, i, j - 1) + calls[j - 1].granted
  }

  lemma {:induction false} GrantedPrefix(calls: seq<Call>, more: seq<Call>, i: nat, j: nat)
    requires i <= j <= |calls|
    ensures Granted(calls + more, i, j) == Granted(calls, i, j)
  {
    if i < j { GrantedPrefix(calls, more, i, j - 1); }
  }

  // ---- one call ---------------------------------------------------------------------------

  /** Window 0 opens at construction; window i+1 opens at call i and includes it. */
  ghost function Opens(e: Envelope, calls: seq<Call>, w: nat): real
    requires w <= |calls|
  {
    if w == 0 then e.start else calls[w - 1].at
  }

  /** What window w still allows at time now. */
  ghost function Slack(e: Envelope, calls: seq<Call>, w: nat, now: real): real
    requires w <= |calls|
  {
    e.burst as real + (e.flow(now) - e.flow(Opens(e, calls, w)))
      - Granted(calls, if w == 0 then 0 else w - 1, |calls|) as real
  }

  /** A request conforms when every window open so far, and the one opening now, allows it. */
  ghost predicate Conforms(e: Envelope, calls: seq<Call>, now: real, k: int) {
    k as real <= e.burst as real &&
    forall w :: 0 <= w <= |calls| ==> k as real <= Slack(e, calls, w, now)
  }

  ghost function LastTime(e: Envelope, calls: seq<Call>): real {
    if calls == [] then e.start else calls[|calls| - 1].at
  }

  ghost predicate Tight(e: Envelope, calls: seq<Call>, w: nat, tokens: real)
    requires w <= |calls|
  {
    tokens == Slack(e, calls, w, LastTime(e, calls))
  }

  /** The token count is the least slack of any window. */
  ghost predicate IsLeastSlack(e: Envelope, calls: seq<Call>, tokens: real) {
    (forall w :: 0 <= w <= |calls| ==> tokens <= Slack(e, calls, w, LastTime(e, calls))) &&
    exists w :: 0 <= w <= |calls| && Tight(e, calls, w, tokens)
  }

  function Least(x: real, y: real): real { if x <= y then x else y }

  lemma SlackOneMore(e: Envelope, calls: seq<Call>, w: nat, c: Call)
    requires w <= |calls|
    ensures Slack(e, calls + [c], w, c.at)
         == Slack(e, calls, w, LastTime(e, calls)) + (e.flow(c.at) - e.flow(LastTime(e, calls))) - c.granted as real
  {
    GrantedPrefix(calls, [c], if w == 0 then 0 else w - 1, |calls|);
  }

  lemma SlackNow(e: Envelope, calls: seq<Call>, c: Call)
    ensures Slack(e, calls + [c], |calls| + 1, c.at) == e.burst as real - c.granted as real
  {
    assert Granted(calls + [c], |calls|, |calls|) == 0;
  }

  ghost function Refilled(e: Envelope, calls: seq<Call>, tokens: real, now: real): real {
    Least(e.burst as real, tokens + (e.flow(now) - e.flow(LastTime(e, calls))))
  }

  /** The count after the refill of a call decides whether the request conforms. */
  lemma RefillDecides(e: Envelope, calls: seq<Call>, tokens: real, now: real, k: int)
    requires IsLeastSlack(e, calls, tokens)
    ensures k as real <= Refilled(e, calls, tokens, now) <==> Conforms(e, calls, now, k)
  {
    var rise := e.flow(now) - e.flow(LastTime(e, calls));
    assert forall w :: 0 <= w <= |calls| ==> Slack(e, calls, w, now) == Slack(e, calls, w, LastTime(e, calls)) + rise;
    var w0 :| 0 <= w0 <= |calls| && Tight(e, calls, w0, tokens);
  }

  /** Refilling and charging keeps the count the least slack of any window. */
  lemma CallKeepsLeastSlack(e: Envelope, calls: seq<Call>, tokens: real, c: Call)
    requires IsLeastSlack(e, calls, tokens)
    ensures IsLeastSlack(e, calls + [c], Refilled(e, calls, tokens, c.at) - c.granted as real)
  {
    var after := Refilled(e, calls, tokens, c.at) - c.granted as real;
    var all := calls + [c];
    SlackNow(e, calls, c);
    forall w | 0 <= w <= |all| ensures after <= Slack(e, all, w, LastTime(e, all)) {
      if w <= |calls| { SlackOneMore(e, calls, w, c); }
    }
    var w0 :| 0 <= w0 <= |calls| && Tight(e, calls, w0, tokens);
    SlackOneMore(e, calls, w0, c);
    assert Tight(e, all, w0, after) || Tight(e, all, |all|, after);
  }

  // ---- whole runs ---------------------------------------------------------------------------

  ghost predicate Ascending(e: Envelope, calls: seq<Call>) {
    (forall i :: 0 <= i < |calls| ==> e.start <= calls[i].at) &&
    forall i, j :: 0 <= i < j < |calls| ==> calls[i].at <= calls[j].at
  }

  /** Between any two calls, both included, no more was granted than the envelope allows. */
  ghost predicate Bounded(e: Envelope, calls: seq<Call>) {
    forall i, j :: 0 <= i <= j < |calls| ==>
      Granted(calls, i, j + 1) as real <= e.burst as real + (e.flow(calls[j].at) - e.flow(calls[i].at))
  }

  /** What holds of a limiter between two calls. */
  ghost predicate Running(e: Envelope, calls: seq<Call>, tokens: real) {
    e.burst > 0 && tokens >= 0.0 && IsLeastSlack(e, calls, tokens) && Ascending(e, calls) && Bounded(e, calls)
  }

  lemma StaysBounded(e: Envelope, calls: seq<Call>, c: Call, tokens: real)
    requires Bounded(e, calls) && IsLeastSlack(e, calls + [c], tokens) && tokens >= 0.0
    ensures Bounded(e, calls + [c])
  {
    var all := calls + [c];
    forall i, j | 0 <= i <= j < |all|
      ensures Granted(all, i, j + 1) as real <= e.burst as real + (e.flow(all[j].at) - e.flow(all[i].at))
    {
      if j < |calls| {
        GrantedPrefix(calls, [c], i, j + 1);
      } else {
        assert tokens <= Slack(e, all, i + 1, c.at);
      }
    }
  }

  /** Refilling and charging no more than is there keeps all of it. */
  lemma ChargeKeepsRunning(e: Envelope, calls: seq<Call>, tokens: real, now: real, granted: int)
    requires Running(e, calls, tokens) && LastTime(e, calls) <= now
    requires granted as real <= Refilled(e, calls, tokens, now)
    ensures Running(e, calls + [Call(now, granted)], Refilled(e, calls, tokens, now) - granted as real)
  {
    var call := Call(now, granted);
    CallKeepsLeastSlack(e, calls, tokens, call);
    StaysBounded(e, calls, call, Refilled(e, calls, tokens, now) - granted as real);
    StaysAscending(e, calls, call);
  }

  lemma StaysAscending(e: Envelope, calls: seq<Call>, c: Call)
    requires Ascending(e, calls) && LastTime(e, calls) <= c.at
    ensures Ascending(e, calls + [c])
  {
  }

  /** The state after one call of `take`: refill, compare, charge. */
  ghost predicate Taken(e: Envelope, calls: seq<Call>, tokens: real, now: real, k: int, ok: bool, left: real) {
    var filled := Refilled(e, calls, tokens, now);
    (ok <==> filled >= k as real) && left == if ok then filled - k as real else filled
  }

  lemma TakeStep(e: Envelope, calls: seq<Call>, tokens: real, now: real, k: int, ok: bool, left: real)
    requires Running(e, calls, tokens) && LastTime(e, calls) <= now && e.flow(LastTime(e, calls)) <= e.flow(now)
    requires Taken(e, calls, tokens, now, k, ok, left)
    ensures ok <==> Conforms(e, calls, now, k)
    ensures Running(e, calls + [Call(now, if ok then k else 0)], left)
  {
    RefillDecides(e, calls, tokens, now, k);
    ChargeKeepsRunning(e, calls, tokens, now, if ok then k else 0);
  }

  /** What calls lo up to hi were granted at times from s to t. */
  ghost function GrantedWithin(calls: seq<Call>, lo: nat, hi: nat, s: real, t: real): int
    requires lo <= hi <= |calls|
  {
    if lo == hi then 0
    else GrantedWithin(calls, lo, hi - 1, s, t) + (if s <= calls[hi - 1].at <= t then calls[hi - 1].granted else 0)
  }

  lemma {:induction false} GrantedWithinSkips(calls: seq<Call>, lo: nat, hi: nat, s: real, t: real)
    requires lo < hi <= |calls| && calls[lo].at < s
    ensures GrantedWithin(calls, lo, hi, s, t) == GrantedWithin(calls, lo + 1, hi, s, t)
    decreases hi
  {
    if lo + 1 < hi { GrantedWithinSkips(calls, lo, hi - 1, s, t); }
  }

  lemma {:induction false} GrantedWithinAll(calls: seq<Call>, lo: nat, hi: nat, s: real, t: real)
    requires lo <= hi <= |calls| && forall i :: lo <= i < hi ==> s <= calls[i].at <= t
    ensures GrantedWithin(calls, lo, hi, s, t) == Granted(calls, lo, hi)
    decreases hi
  {
    if lo < hi { GrantedWithinAll(calls, lo, hi - 1, s, t); }
  }

  ghost predicate Increasing(f: real -> real) {
    forall x, y :: x <= y ==> f(x) <= f(y)
  }

  lemma {:induction false} NoWindowExceedsFlow(e: Envelope, calls: seq<Call>, lo: nat, hi: nat, s: real, t: real)
    requires Bounded(e, calls) && Ascending(e, calls) && Increasing(e.flow) && s <= t && e.burst > 0
    requires lo <= hi <= |calls|
    ensures GrantedWithin(calls, lo, hi, s, t) as real <= e.burst as real + (e.flow(t) - e.flow(s))
    decreases hi - lo
  {
    if lo < hi {
      if calls[hi - 1].at > t {
        NoWindowExceedsFlow(e, calls, lo, hi - 1, s, t);
      } else if calls[lo].at < s {
        NoWindowExceedsFlow(e, calls, lo + 1, hi, s, t);
        GrantedWithinSkips(calls, lo, hi, s, t);
      } else {
        GrantedWithinAll(calls, lo, hi, s, t);
        assert Granted(calls, lo, hi - 1 + 1) == Granted(calls, lo, hi);
        assert e.flow(s) <= e.flow(calls[lo].at) && e.flow(calls[hi - 1].at) <= e.flow(t);
      }
    }
  }

  lemma FlowDifference(rate: real, x: real, y: real)
    requires rate > 0.0
    ensures (y - x) * rate == rate * (y - x) == Linear(rate)(y) - Linear(rate)(x)
    ensures x <= y ==> Linear(rate)(x) <= Linear(rate)(y)
  {
    if x <= y { NonNegativeProduct(rate, y - x); }
  }

  lemma NonNegativeProduct(x: real, y: real)
    requires x >= 0.0 && y >= 0.0
    ensures x * y >= 0.0
  {
  }

  /** The refill of `take`, in terms of the flow since the last call. */
  lemma RefillIsFlow(rate: real, e: Envelope, calls: seq<Call>, tokens: real, now: real)
    requires rate > 0.0 && e.flow == Linear(rate) && LastTime(e, calls) <= now
    ensures Least(e.burst as real, tokens + (now - LastTime(e, calls)) * rate) == Refilled(e, calls, tokens, now)
    ensures e.flow(LastTime(e, calls)) <= e.flow(now)
  {
    FlowDifference(rate, LastTime(e, calls), now);
  }

  lemma LinearIncreasing(rate: real)
    requires rate > 0.0
    ensures Increasing(Linear(rate))
  {
    var f := Linear(rate);
    forall x, y | x <= y ensures f(x) <= f(y) {
      FlowDifference(rate, x, y);
    }
  }

  /** No window of any length, wherever it starts, is granted more than burst + rate * length. */
  lemma NoWindowExceedsEnvelope(rate: real, e: Envelope, calls: seq<Call>, tokens: real, s: real, t: real)
    requires rate > 0.0 && e.flow == Linear(rate) && Running(e, calls, tokens) && s <= t
    ensures GrantedWithin(calls, 0, |calls|, s, t) as real <= e.burst as real + rate * (t - s)
  {
    LinearIncreasing(rate);
    NoWindowExceedsFlow(e, calls, 0, |calls|, s, t);
    FlowDifference(rate, s, t);
  }

  lemma NoCallsYet(e: Envelope)
    requires e.burst > 0
    ensures Running(e, [], e.burst as real)
  {
    assert Granted([], 0, 0) == 0;
    assert Tight(e, [], 0, e.burst as real);
  }

  // ---- the object -----------------------------------------------------------------------------

  datatype Result<T> = Ok(value: T) | Err(reason: string)

  class RateLimiter {
    const rate: real
    const burst: int
    var tokens: real
    var last: real
    ghost const start: real
    /** Every call so far. */
    ghost var calls: seq<Call>

    ghost function Shape(): Envelope {
      Envelope(Linear(rate), burst, start)
    }

    ghost predicate Valid()
      reads this
    {
      rate > 0.0 && last == LastTime(Shape(), calls) && Running(Shape(), calls, tokens)
    }

    constructor (rate: real, burst: int, now: real)
      requires rate > 0.0 && burst > 0
      ensures Valid() && calls == [] && this.rate == rate && this.burst == burst && start == now
    {
      this.rate := rate;
      this.burst := burst;
      tokens := burst as real;
      last := now;
      start := now;
      calls := [];
      new;
      NoCallsYet(Shape());
    }

    /** `__init__`, with the error it raises. */
    static method Make(rate: real, burst: int, now: real) returns (r: Result<RateLimiter>)
      ensures r.Err? <==> rate <= 0.0 || burst <= 0
      ensures r.Err? ==> r.reason == "rate and burst must be positive"
      ensures r.Ok? ==> fresh(r.value) && r.value.Valid() && r.value.calls == []
      ensures r.Ok? ==> r.value.rate == rate && r.value.burst == burst && r.value.start == now
    {
      if rate <= 0.0 || burst <= 0 {
        return Err("rate and burst must be positive");
      }
      var limiter := new RateLimiter(rate, burst, now);
      return Ok(limiter);
    }

    /** `take`: the clock never runs backwards. A request is granted exactly when it conforms,
        and the call is recorded with what it was granted. */
    method Take(now: real, k: int) returns (ok: bool)
      requires Valid() && now >= last
      modifies this`tokens, this`last, this`calls
      ensures Valid()
      ensures ok <==> Conforms(Shape(), old(calls), now, k)
      ensures calls == old(calls) + [Call(now, if ok then k else 0)]
    {
      ghost var e, before, left := Shape(), calls, tokens;
      tokens := Refill(now - last, rate, burst, tokens, e, calls, now);
      last := now;
      ok := tokens >= k as real;
      if ok {
        tokens := tokens - k as real;
      }
      TakeStep(e, before, left, now, k, ok, tokens);
      calls := calls + [Call(now, if ok then k else 0)];
    }

    /** `min(self.burst, self._tokens + elapsed * self.rate)`. */
    static method Refill(elapsed: real, rate: real, burst: int, tokens: real,
                         ghost e: Envelope, ghost calls: seq<Call>, ghost now: real)
      returns (filled: real)
      requires rate > 0.0 && e.flow == Linear(rate) && e.burst == burst
      requires LastTime(e, calls) <= now && elapsed == now - LastTime(e, calls)
      ensures filled == Refilled(e, calls, tokens, now)
      ensures e.flow(LastTime(e, calls)) <= e.flow(now)
    {
      RefillIsFlow(rate, e, calls, tokens, now);
      filled := Least(burst as real, tokens + elapsed * rate);
    }
  }
}
