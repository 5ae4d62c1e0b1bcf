/** The two request limiters: a fixed window per tenant and a sliding window per agent.

    Times are natural numbers of one monotone clock, in milliseconds. */
module RateLimits {
  import opened Lists

  const WINDOW: nat := 60_000
  const RECALL_RATE_MAX: nat := 10

  /** How often a time in [from, from + WINDOW) occurs. */
  function InInterval(times: seq<nat>, from: nat): (n: nat)
    ensures n <= |times|
  {
    if times == [] then 0
    else
      var last := times[|times| - 1];
      InInterval(times[..|times| - 1], from) + if from <= last < from + WINDOW then 1 else 0
  }

  ghost predicate Nondecreasing(times: seq<nat>) {
    forall i, j | 0 <= i <= j < |times| :: times[i] <= times[j]
  }

  lemma InIntervalSnoc(times: seq<nat>, t: nat, from: nat)
    ensures InInterval(times + [t], from) == InInterval(times, from) + if from <= t < from + WINDOW then 1 else 0
  {
    assert (times + [t])[..|times|] == times;
  }

  lemma {:induction false} NoneOutside(times: seq<nat>, from: nat)
    requires forall i | 0 <= i < |times| :: times[i] < from || from + WINDOW <= times[i]
    ensures InInterval(times, from) == 0
  {
    if times != [] {
      NoneOutside(times[..|times| - 1], from);
    }
  }

  // ---------------------------------------------------------------------------------------------
  // Fixed window

  datatype Window = Window(start: nat, count: nat)

  /** Elapsed time; a clock reading before the window start counts as none. */
  function Since(start: nat, now: nat): nat {
    if now < start then 0 else now - start
  }

  /** The window a request at `now` is counted in, before it is counted. */
  function Rolled(w: Window, now: nat): Window {
    if WINDOW <= Since(w.start, now) then Window(now, 0) else w
  }

  datatype Fixed = Fixed(window: Window, admitted: seq<nat>)

  function FixedStep(f: Fixed, limit: nat, now: nat): Fixed {
    var w := Rolled(f.window, now);
    if limit <= w.count then Fixed(w, f.admitted)
    else Fixed(w.(count := w.count + 1), f.admitted + [now])
  }

  /** A request and the limit its tenant has by then: two keys of one tenant may carry different limits. */
  datatype Request = Request(now: nat, limit: nat)

  function Times(requests: seq<Request>): (times: seq<nat>)
    ensures |times| == |requests|
  {
    seq(|requests|, i requires 0 <= i < |requests| => requests[i].now)
  }

  /** A tenant's window and admitted requests after some requests. */
  function FixedRun(requests: seq<Request>): (f: Fixed)
    requires requests != []
    decreases |requests|
  {
    var n := |requests| - 1;
    var before := if n == 0 then Fixed(Window(requests[0].now, 0), []) else FixedRun(requests[..n]);
    FixedStep(before, requests[n].limit, requests[n].now)
  }

  ghost predicate LimitedBy(requests: seq<Request>, top: nat) {
    forall i | 0 <= i < |requests| :: requests[i].limit <= top
  }

  predicate AllPositive(requests: seq<Request>) {
    forall i | 0 <= i < |requests| :: requests[i].limit > 0
  }

  lemma PrefixOrdered(requests: seq<Request>, top: nat)
    requires |requests| > 1 && Nondecreasing(Times(requests)) && LimitedBy(requests, top)
    ensures var n := |requests| - 1;
            && Nondecreasing(Times(requests[..n])) && LimitedBy(requests[..n], top)
            && requests[n - 1].now <= requests[n].now
            && (AllPositive(requests) ==> AllPositive(requests[..n]))
  {
    var n := |requests| - 1;
    var times, front := Times(requests), Times(requests[..n]);
    assert forall i | 0 <= i < n :: front[i] == times[i];
    assert times[n - 1] <= times[n];
  }

  /** What holds of an interval [from, from + WINDOW) while requests with limits up to `top` arrive, all of
      them positive or not. */
  ghost predicate FixedInv(f: Fixed, top: nat, positive: bool, from: nat, now: nat) {
    var w, n := f.window, InInterval(f.admitted, from);
    && w.start <= now < w.start + WINDOW
    && w.count <= top && (positive ==> w.count > 0)
    && (forall i | 0 <= i < |f.admitted| :: f.admitted[i] <= now)
    && (w.start <= from ==> n <= w.count)
    && (now < from ==> n == 0)
    && (positive && w.start < from <= now ==> n < w.count)
    && (from < w.start < from + WINDOW ==> n <= top + w.count && (positive ==> n < top + w.count))
    && n <= 2 * top && (positive ==> n < 2 * top)
  }

  lemma FixedStepKeeps(f: Fixed, limit: nat, top: nat, positive: bool, from: nat, before: nat, now: nat)
    requires FixedInv(f, top, positive, from, before) && before <= now
    requires limit <= top && (positive ==> limit > 0)
    ensures FixedInv(FixedStep(f, limit, now), top, positive, from, now)
  {
    InIntervalSnoc(f.admitted, now, from);
  }

  lemma FirstRequestInv(limit: nat, top: nat, positive: bool, now: nat, from: nat)
    requires limit <= top && (positive ==> limit > 0)
    ensures FixedInv(FixedStep(Fixed(Window(now, 0), []), limit, now), top, positive, from, now)
  {
    InIntervalSnoc([], now, from);
    assert [] + [now] == [now];
  }

  lemma {:induction false} FixedRunInv(requests: seq<Request>, top: nat, positive: bool, from: nat)
    requires requests != [] && Nondecreasing(Times(requests)) && LimitedBy(requests, top)
    requires positive ==> AllPositive(requests)
    ensures FixedInv(FixedRun(requests), top, positive, from, requests[|requests| - 1].now)
    decreases |requests|
  {
    var n := |requests| - 1;
    if n == 0 {
      FirstRequestInv(requests[0].limit, top, positive, requests[0].now, from);
    } else {
      PrefixOrdered(requests, top);
      FixedRunInv(requests[..n], top, positive, from);
      FixedStepKeeps(FixedRun(requests[..n]), requests[n].limit, top, positive, from, requests[n - 1].now,
                     requests[n].now);
    }
  }

  /** Whatever the requests, any half-open interval of one window length sees at most twice the highest limit
      less one admitted; twice the highest limit if some request has the limit zero. */
  lemma FixedWindowBound(requests: seq<Request>, top: nat, from: nat)
    requires requests != [] && Nondecreasing(Times(requests)) && LimitedBy(requests, top)
    ensures InInterval(FixedRun(requests).admitted, from) <= if AllPositive(requests) then 2 * top - 1 else 2 * top
  {
    FixedRunInv(requests, top, AllPositive(requests), from);
  }

  /** The counter of the window is the number of admitted requests in it, and at most the highest limit. */
  predicate CountExact(f: Fixed, top: nat) {
    f.window.count == InInterval(f.admitted, f.window.start) && f.window.count <= top
  }

  lemma WindowStepExact(f: Fixed, limit: nat, top: nat, now: nat)
    requires CountExact(f, top) && limit <= top
    requires f.window.start <= now && UpTo(f.admitted, f.window.start + WINDOW - 1)
    ensures CountExact(FixedStep(f, limit, now), top)
  {
    if WINDOW <= now - f.window.start {
      NoneOutside(f.admitted, now);
    }
    InIntervalSnoc(f.admitted, now, Rolled(f.window, now).start);
  }

  lemma FixedRunShape(requests: seq<Request>, top: nat)
    requires requests != [] && Nondecreasing(Times(requests)) && LimitedBy(requests, top)
    ensures var f, now := FixedRun(requests), requests[|requests| - 1].now;
            f.window.start <= now < f.window.start + WINDOW && UpTo(f.admitted, now)
  {
    FixedRunInv(requests, top, false, 0);
  }

  /** The count is exactly what the window has admitted so far, and never above the highest limit. */
  lemma {:induction false} WindowCountExact(requests: seq<Request>, top: nat)
    requires requests != [] && Nondecreasing(Times(requests)) && LimitedBy(requests, top)
    ensures CountExact(FixedRun(requests), top)
    decreases |requests|
  {
    var n := |requests| - 1;
    var limit, now := requests[n].limit, requests[n].now;
    if n == 0 {
      WindowStepExact(Fixed(Window(now, 0), []), limit, top, now);
    } else {
      var f := FixedRun(requests[..n]);
      PrefixOrdered(requests, top);
      WindowCountExact(requests[..n], top);
      FixedRunShape(requests[..n], top);
      WindowStepExact(f, limit, top, now);
    }
  }

  /** The index at which a burst goes on in the next window. */
  function Turn(limit: nat, zero: bool): nat {
    if zero then limit + 1 else limit
  }

  function BurstRequest(limit: nat, zero: bool, i: nat): Request {
    if i == 0 then Request(0, if zero then 0 else limit)
    else Request(if i < Turn(limit, zero) then WINDOW - 1 else WINDOW, limit)
  }

  /** One request, which may have the limit zero, then the rest of the limit at the end of its window, then a
      new window's worth. */
  function Burst(limit: nat, zero: bool, count: nat): (requests: seq<Request>)
    ensures |requests| == count
  {
    seq(count, i requires 0 <= i < count => BurstRequest(limit, zero, i))
  }

  function BurstWindow(limit: nat, zero: bool, count: nat): Window
    requires 1 <= count
  {
    var turn := Turn(limit, zero);
    if turn < count then Window(WINDOW, count - turn) else Window(0, if zero then count - 1 else count)
  }

  lemma BurstStep(f: Fixed, limit: nat, zero: bool, i: nat)
    requires 1 <= i < limit + Turn(limit, zero) && f.window == BurstWindow(limit, zero, i)
    ensures var request := BurstRequest(limit, zero, i);
            FixedStep(f, request.limit, request.now) ==
            Fixed(BurstWindow(limit, zero, i + 1), f.admitted + [request.now])
  {
  }

  lemma BurstBegins(limit: nat, zero: bool)
    requires 0 < limit
    ensures var f := FixedRun(Burst(limit, zero, 1));
            f.window == BurstWindow(limit, zero, 1) && f.admitted == if zero then [] else [0]
  {
    var requests := Burst(limit, zero, 1);
    assert requests[0] == BurstRequest(limit, zero, 0);
  }

  lemma BurstGoesOn(limit: nat, zero: bool, n: nat)
    requires 1 <= n
    ensures var last := BurstRequest(limit, zero, n);
            FixedRun(Burst(limit, zero, n + 1)) == FixedStep(FixedRun(Burst(limit, zero, n)), last.limit, last.now)
  {
    var requests := Burst(limit, zero, n + 1);
    assert requests[..n] == Burst(limit, zero, n) && requests[n] == BurstRequest(limit, zero, n);
  }

  /** All of them are admitted but one with the limit zero. */
  lemma {:induction false} BurstAdmitted(limit: nat, zero: bool, count: nat) returns (f: Fixed)
    requires 0 < limit && 1 <= count <= limit + Turn(limit, zero)
    ensures f == FixedRun(Burst(limit, zero, count)) && f.window == BurstWindow(limit, zero, count)
    ensures InInterval(f.admitted, WINDOW - 1) == count - 1
    decreases count
  {
    if count == 1 {
      BurstBegins(limit, zero);
      f := FixedRun(Burst(limit, zero, 1));
      InIntervalSnoc([], 0, WINDOW - 1);
      assert [] + [0] == [0];
    } else {
      var n := count - 1;
      var last := BurstRequest(limit, zero, n);
      var before := BurstAdmitted(limit, zero, n);
      BurstGoesOn(limit, zero, n);
      BurstStep(before, limit, zero, n);
      InIntervalSnoc(before.admitted, last.now, WINDOW - 1);
      f := Fixed(BurstWindow(limit, zero, count), before.admitted + [last.now]);
    }
  }

  lemma BurstIsInOrder(limit: nat, zero: bool, count: nat)
    requires 0 < limit && 1 <= count
    ensures var requests := Burst(limit, zero, count);
            Nondecreasing(Times(requests)) && LimitedBy(requests, limit) && (AllPositive(requests) <==> !zero)
  {
    var requests := Burst(limit, zero, count);
    var times := Times(requests);
    assert forall i | 0 <= i < count :: times[i] == BurstRequest(limit, zero, i).now;
    assert requests[0].limit == if zero then 0 else limit;
  }

  /** The bound is attained for every positive limit, with a request of the limit zero and without. */
  lemma FixedWindowBoundAttained(limit: nat, zero: bool) returns (requests: seq<Request>)
    requires 0 < limit
    ensures requests != [] && Nondecreasing(Times(requests)) && LimitedBy(requests, limit)
    ensures AllPositive(requests) <==> !zero
    ensures InInterval(FixedRun(requests).admitted, WINDOW - 1) == if zero then 2 * limit else 2 * limit - 1
  {
    var count := limit + Turn(limit, zero);
    requests := Burst(limit, zero, count);
    BurstIsInOrder(limit, zero, count);
    var f := BurstAdmitted(limit, zero, count);
    assert InInterval(f.admitted, WINDOW - 1) == count - 1;
  }

  // ---------------------------------------------------------------------------------------------
  // Sliding window

  /** The times less than one window before `now`. */
  function Recent(times: seq<nat>, now: nat): (recent: seq<nat>)
    ensures |recent| <= |times|
  {
    if times == [] then []
    else
      var last := times[|times| - 1];
      Recent(times[..|times| - 1], now) + if Since(last, now) < WINDOW then [last] else []
  }

  function YoungFlags(times: seq<nat>, now: nat): (flags: seq<bool>)
    ensures |flags| == |times|
  {
    seq(|times|, i requires 0 <= i < |times| => now < times[i] + 60_000)
  }

  /** The times that are kept are those less than a minute old, those after `now` included. */
  lemma {:induction false} RecentExact(times: seq<nat>, now: nat)
    ensures Recent(times, now) == Selected(times, YoungFlags(times, now))
  {
    if times != [] {
      var n := |times| - 1;
      RecentExact(times[..n], now);
      assert YoungFlags(times, now)[..n] == YoungFlags(times[..n], now);
    }
  }

  datatype Sliding = Sliding(bucket: seq<nat>, admitted: seq<nat>)

  function SlidingStep(s: Sliding, now: nat): Sliding {
    var kept := Recent(s.bucket, now);
    if RECALL_RATE_MAX <= |kept| then Sliding(kept, s.admitted)
    else Sliding(kept + [now], s.admitted + [now])
  }

  function SlidingRun(times: seq<nat>): Sliding {
    if times == [] then Sliding([], [])
    else SlidingStep(SlidingRun(times[..|times| - 1]), times[|times| - 1])
  }

  ghost predicate UpTo(times: seq<nat>, now: nat) {
    forall i | 0 <= i < |times| :: times[i] <= now
  }

  lemma {:induction false} RecentAgain(times: seq<nat>, before: nat, now: nat)
    requires UpTo(times, before) && before <= now
    ensures Recent(Recent(times, before), now) == Recent(times, now)
  {
    if times != [] {
      var front, last := times[..|times| - 1], times[|times| - 1];
      RecentAgain(front, before, now);
      var r := Recent(front, before);
      assert (r + [last])[..|r|] == r;
      assert r + [] == r;
    }
  }

  lemma RecentSnoc(times: seq<nat>, t: nat, now: nat)
    ensures Recent(times + [t], now) == Recent(times, now) + if Since(t, now) < WINDOW then [t] else []
  {
    assert (times + [t])[..|times|] == times;
  }

  lemma {:induction false} IntervalIsRecent(times: seq<nat>, from: nat, now: nat)
    requires UpTo(times, now) && from <= now < from + WINDOW
    ensures InInterval(times, from) <= |Recent(times, now)|
  {
    if times != [] {
      IntervalIsRecent(times[..|times| - 1], from, now);
    }
  }

  lemma {:induction false} AdmittedUpTo(times: seq<nat>)
    requires times != [] && Nondecreasing(times)
    ensures UpTo(SlidingRun(times).admitted, times[|times| - 1])
    decreases |times|
  {
    if |times| > 1 {
      AdmittedUpTo(times[..|times| - 1]);
    }
  }

  /** The bucket is exactly the requests admitted in the last window, and a request is turned away
      exactly when there are ten of those already. */
  lemma {:induction false} BucketExact(times: seq<nat>)
    requires times != [] && Nondecreasing(times)
    ensures var n := |times| - 1;
            var s, prior, now := SlidingRun(times), SlidingRun(times[..n]).admitted, times[n];
            && s.bucket == Recent(s.admitted, now)
            && |s.bucket| <= 10
            && (if |Recent(prior, now)| == 10 then s.admitted == prior else s.admitted == prior + [now])
    decreases |times|
  {
    var n := |times| - 1;
    var now := times[n];
    var s := SlidingRun(times[..n]);
    if n > 0 {
      BucketExact(times[..n]);
      AdmittedUpTo(times[..n]);
      RecentAgain(s.admitted, times[n - 1], now);
      RecentSize(s.bucket, now);
    }
    RecentSnoc(s.admitted, now, now);
  }

  lemma RecentSize(times: seq<nat>, now: nat)
    ensures |Recent(times, now)| <= |times|
  {
  }

  /** Any half-open interval of one window length sees at most ten admitted recalls. */
  lemma {:induction false} SlidingWindowBound(times: seq<nat>, from: nat)
    requires Nondecreasing(times)
    ensures InInterval(SlidingRun(times).admitted, from) <= 10
    decreases |times|
  {
    if times != [] {
      var n := |times| - 1;
      var s, now := SlidingRun(times[..n]), times[n];
      SlidingWindowBound(times[..n], from);
      BucketExact(times);
      AdmittedUpTo(times);
      InIntervalSnoc(s.admitted, now, from);
      if from <= now < from + WINDOW && SlidingRun(times).admitted != s.admitted {
        IntervalIsRecent(SlidingRun(times).admitted, from, now);
      }
    }
  }

  // ---------------------------------------------------------------------------------------------
  // The limiters as the server runs them

  function BucketOf(buckets: map<string, seq<nat>>, agent: string): seq<nat> {
    if agent in buckets then buckets[agent] else []
  }

  class Limiters {
    var rateLimits: map<string, Window>
    var recalls: map<string, seq<nat>>

    constructor ()
      ensures rateLimits == map[] && recalls == map[]
    {
      rateLimits := map[];
      recalls := map[];
    }

    method RateLimitBlocked(tenant: string, limitRpm: nat, now: nat) returns (blocked: bool)
      modifies this`rateLimits
      ensures var w := if tenant in old(rateLimits) then old(rateLimits)[tenant] else Window(now, 0);
              var f := FixedStep(Fixed(w, []), limitRpm, now);
              rateLimits == old(rateLimits)[tenant := f.window] && (blocked <==> f.admitted == [])
    {
      if tenant !in rateLimits {
        rateLimits := rateLimits[tenant := Window(now, 0)];
      }
      if WINDOW <= Since(rateLimits[tenant].start, now) {
        rateLimits := rateLimits[tenant := Window(now, 0)];
      }
      var window := rateLimits[tenant];
      if limitRpm <= window.count {
        return true;
      }
      rateLimits := rateLimits[tenant := window.(count := window.count + 1)];
      blocked := false;
    }

    static method RetainRecent(bucket: seq<nat>, now: nat) returns (kept: seq<nat>)
      ensures kept == Recent(bucket, now)
    {
      kept := [];
      var index := 0;
      while index < |bucket|
        invariant 0 <= index <= |bucket|
        invariant kept == Recent(bucket[..index], now)
      {
        assert bucket[..index] + [bucket[index]] == bucket[..index + 1];
        RecentSnoc(bucket[..index], bucket[index], now);
        kept := kept + if Since(bucket[index], now) < WINDOW then [bucket[index]] else [];
        index := index + 1;
      }
      assert bucket[..index] == bucket;
    }

    method RecallLimited(agent: string, now: nat) returns (limited: bool)
      modifies this`recalls
      ensures var s := SlidingStep(Sliding(BucketOf(old(recalls), agent), []), now);
              recalls == old(recalls)[agent := s.bucket] && (limited <==> |s.admitted| == 0)
    {
      var kept := RetainRecent(BucketOf(recalls, agent), now);
      limited := RECALL_RATE_MAX <= |kept|;
      if !limited {
        kept := kept + [now];
      }
      recalls := recalls[agent := kept];
    }
  }
}
