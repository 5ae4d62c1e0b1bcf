/** The tenant registry backed by PostgreSQL: stale eviction, the capped refresh budget and the tick
    loop, as a timed state machine.

    Times are natural numbers of one monotone clock.  A load is an input: what it returns and how
    long it takes.  A timeout fires when its budget is used up, and a refresh starts at its tick or,
    when the previous refresh overran the tick, at once. */
module TenantRegistry {
  import opened Options

  datatype TenantInfo = TenantInfo(tenantId: string, rateLimitRpm: nat)

  type Snapshot = map<string, TenantInfo>

  datatype SnapshotState = SnapshotState(tenants: Snapshot, refreshedAt: Option<nat>)

  const EMPTY: SnapshotState := SnapshotState(map[], None)

  datatype Config = Config(refreshInterval: nat, maxStale: nat, refreshTimeout: nat)

  /** What startup accepts. */
  predicate ValidConfig(c: Config) {
    0 < c.refreshInterval <= c.maxStale && 0 < c.refreshTimeout
  }

  datatype Load =
    | Loads(snapshot: Snapshot, took: nat)
    | Fails(took: nat)
    | Panics(took: nat)
    | Hangs

  /** The snapshot requests see once staleness has been checked at `now`. */
  function Cleared(c: Config, s: SnapshotState, now: nat): SnapshotState {
    if s.refreshedAt.Some? && c.maxStale <= now - s.refreshedAt.value then EMPTY else s
  }

  /** How long a refresh that starts at `now` may take. */
  function Budget(c: Config, s: SnapshotState, now: nat): nat
    requires s.refreshedAt.Some? ==> s.refreshedAt.value <= now
  {
    if s.tenants == map[] || s.refreshedAt.None? then c.refreshTimeout
    else
      var age := now - s.refreshedAt.value;
      if age < c.maxStale && c.maxStale - age < c.refreshTimeout then c.maxStale - age else c.refreshTimeout
  }

  datatype Refreshed = Refreshed(state: SnapshotState, ended: nat, installed: bool)

  predicate Past(s: SnapshotState, now: nat) {
    s.refreshedAt.Some? ==> s.refreshedAt.value <= now
  }

  /** One refresh that starts at `now`. */
  function Refresh(c: Config, s: SnapshotState, now: nat, load: Load): (r: Refreshed)
    requires Past(s, now)
  {
    var kept := Cleared(c, s, now);
    var budget := Budget(c, kept, now);
    if load.Hangs? || budget < load.took then
      Refreshed(Cleared(c, kept, now + budget), now + budget, false)
    else
      var end := now + load.took;
      if load.Loads? then Refreshed(SnapshotState(load.snapshot, Some(end)), end, true)
      else Refreshed(Cleared(c, kept, end), end, false)
  }

  /** The loop between two refreshes: the state, when the last refresh ended, the next tick. */
  datatype Loop = Loop(state: SnapshotState, ended: nat, nextTick: nat)

  function NextStart(l: Loop): nat {
    if l.nextTick < l.ended then l.ended else l.nextTick
  }

  function Ticked(c: Config, l: Loop, load: Load): Loop
    requires Past(l.state, l.ended)
  {
    var r := Refresh(c, l.state, NextStart(l), load);
    Loop(r.state, r.ended, l.nextTick + c.refreshInterval)
  }

  /** The loop as startup leaves it after an initial refresh that ended at `now`. */
  function Started(c: Config, initial: SnapshotState, now: nat): Loop {
    Loop(initial, now, now + c.refreshInterval)
  }

  ghost predicate LoopInv(c: Config, l: Loop) {
    && l.nextTick <= l.ended + c.refreshInterval
    && (l.state.tenants != map[] ==> l.state.refreshedAt.Some?)
    && (l.state.refreshedAt.Some? ==>
          var r := l.state.refreshedAt.value;
          r <= l.ended < r + c.maxStale && l.nextTick < r + c.maxStale + c.refreshInterval)
  }

  ghost function Ran(c: Config, l: Loop, loads: seq<Load>): (end: Loop)
    requires ValidConfig(c) && LoopInv(c, l)
    ensures LoopInv(c, end)
    decreases |loads|
  {
    if loads == [] then l
    else
      TickKeepsInv(c, l, loads[0]);
      Ran(c, Ticked(c, l, loads[0]), loads[1..])
  }

  lemma TickKeepsInv(c: Config, l: Loop, load: Load)
    requires ValidConfig(c) && LoopInv(c, l)
    ensures LoopInv(c, Ticked(c, l, load))
  {
  }

  /** Requests can see `shown` at time t, from the end of one refresh to the end of the next. */
  ghost predicate Visible(c: Config, l: Loop, load: Load, t: nat, shown: SnapshotState)
    requires Past(l.state, l.ended)
  {
    var start := NextStart(l);
    var r := Refresh(c, l.state, start, load);
    || (l.ended <= t <= start && shown == l.state)
    || (start <= t <= r.ended && shown == Cleared(c, l.state, start))
    || (t == r.ended && shown == r.state)
  }

  /** The two ways startup can leave the registry: empty, or with a snapshot loaded at `began`. */
  predicate StartsAs(initial: SnapshotState, began: nat) {
    initial == EMPTY || initial.refreshedAt == Some(began)
  }

  /** Over every run of the loop, with any mix of successes, errors, hangs and panics, a nonempty
      snapshot that requests can see is younger than the staleness limit plus one interval. */
  lemma VisibleSnapshotAge(c: Config, initial: SnapshotState, began: nat, loads: seq<Load>, load: Load,
                           t: nat, shown: SnapshotState)
    requires ValidConfig(c) && StartsAs(initial, began)
    requires Visible(c, Ran(c, Started(c, initial, began), loads), load, t, shown)
    requires shown.tenants != map[]
    ensures shown.refreshedAt.Some?
    ensures shown.refreshedAt.value <= t < shown.refreshedAt.value + c.maxStale + c.refreshInterval
  {
    var l := Ran(c, Started(c, initial, began), loads);
    TickKeepsInv(c, l, load);
  }

  lemma {:induction false} RanSnoc(c: Config, l: Loop, loads: seq<Load>, load: Load)
    requires ValidConfig(c) && LoopInv(c, l)
    ensures Ran(c, l, loads + [load]) == Ticked(c, Ran(c, l, loads), load)
    decreases |loads|
  {
    if loads == [] {
      assert loads + [load] == [load];
      assert [load][1..] == [];
    } else {
      TickKeepsInv(c, l, loads[0]);
      RanSnoc(c, Ticked(c, l, loads[0]), loads[1..], load);
      assert (loads + [load])[1..] == loads[1..] + [load];
    }
  }

  // ---------------------------------------------------------------------------------------------
  // How old a visible snapshot can get, exactly

  /** How long after a tick a snapshot has to be installed for a later tick to fall on the last moment
      at which it is not yet stale. */
  function BestOffset(c: Config): nat
    requires ValidConfig(c)
  {
    var past := (c.maxStale - 1) % c.refreshInterval;
    if past == 0 then 0 else c.refreshInterval - past
  }

  /** The greatest age of a visible snapshot: one unit short of the limit plus one interval if a load may
      take as long as the best offset, and otherwise the limit rounded up to whole intervals. */
  function MaxAge(c: Config): (age: nat)
    requires ValidConfig(c)
  {
    if BestOffset(c) <= c.refreshTimeout then c.maxStale + c.refreshInterval - 1
    else ((c.maxStale - 1) / c.refreshInterval + 1) * c.refreshInterval
  }

  /** It is never below the limit, so no configuration keeps the promise that a snapshot goes when it
      reaches the limit. */
  lemma MaxAgeReachesLimit(c: Config)
    requires ValidConfig(c)
    ensures c.maxStale <= MaxAge(c) < c.maxStale + c.refreshInterval
    ensures MaxAge(c) == c.maxStale + c.refreshInterval - 1 <==> BestOffset(c) <= c.refreshTimeout
  {
    DivisionBounds(c.maxStale - 1, c.refreshInterval);
  }

  lemma DivisionBounds(n: nat, d: nat)
    requires 0 < d
    ensures var q := n / d; q * d <= n < (q + 1) * d && n == q * d + n % d && (q + 1) * d == q * d + d
  {
  }

  lemma FewerMultiples(a: nat, b: nat, d: nat)
    requires 0 < d && a * d < b * d
    ensures a < b
  {
    assert (b - a) * d == b * d - a * d;
  }

  lemma MultiplesGrow(a: nat, b: nat, d: nat)
    requires a <= b
    ensures a * d <= b * d
  {
    assert (b - a) * d == b * d - a * d;
  }

  /** Fewer than `limit + offset` units are at most as many intervals as the limit has whole ones, if the
      offset does not fill up the next. */
  lemma IntervalsWithin(n: nat, limit: nat, offset: nat, d: nat)
    requires 0 < d && 0 < limit && (limit - 1) % d + offset < d && n * d < limit + offset
    ensures (n + 1) * d <= ((limit - 1) / d + 1) * d
  {
    var q := (limit - 1) / d;
    assert n * d < (q + 1) * d by {
      DivisionBounds(limit - 1, d);
    }
    FewerMultiples(n, q + 1, d);
    MultiplesGrow(n + 1, q + 1, d);
  }

  /** The snapshot was installed within the timeout after tick k, tick 0 being the start. */
  ghost predicate InstalledAfterTick(c: Config, began: nat, l: Loop, k: nat) {
    && l.state.refreshedAt.Some?
    && began + k * c.refreshInterval <= l.state.refreshedAt.value <= began + k * c.refreshInterval + c.refreshTimeout
  }

  /** With a timeout below the interval every refresh starts on its tick. */
  ghost predicate OnSchedule(c: Config, began: nat, l: Loop, ticks: nat) {
    && l.nextTick == began + (ticks + 1) * c.refreshInterval
    && began + ticks * c.refreshInterval <= l.ended < l.nextTick
    && (l.state.refreshedAt.Some? ==> exists k :: 0 <= k <= ticks && InstalledAfterTick(c, began, l, k))
  }

  lemma TickStaysOnSchedule(c: Config, began: nat, l: Loop, ticks: nat, load: Load)
    requires ValidConfig(c) && LoopInv(c, l) && c.refreshTimeout < c.refreshInterval
    requires OnSchedule(c, began, l, ticks)
    ensures OnSchedule(c, began, Ticked(c, l, load), ticks + 1)
  {
    var next := Ticked(c, l, load);
    assert (ticks + 2) * c.refreshInterval == (ticks + 1) * c.refreshInterval + c.refreshInterval;
    if next.state.refreshedAt.Some? {
      if next.state == l.state {
        var k :| 0 <= k <= ticks && InstalledAfterTick(c, began, l, k);
        assert InstalledAfterTick(c, began, next, k);
      } else {
        assert InstalledAfterTick(c, began, next, ticks + 1);
      }
    }
  }

  lemma {:induction false} RunStaysOnSchedule(c: Config, began: nat, l: Loop, ticks: nat, loads: seq<Load>)
    requires ValidConfig(c) && LoopInv(c, l) && c.refreshTimeout < c.refreshInterval
    requires OnSchedule(c, began, l, ticks)
    ensures OnSchedule(c, began, Ran(c, l, loads), ticks + |loads|)
    decreases |loads|
  {
    if loads != [] {
      TickKeepsInv(c, l, loads[0]);
      TickStaysOnSchedule(c, began, l, ticks, loads[0]);
      RunStaysOnSchedule(c, began, Ticked(c, l, loads[0]), ticks + 1, loads[1..]);
    }
  }

  /** On schedule, the next tick comes a whole number of intervals after the installation, less its offset. */
  lemma ScheduledAge(c: Config, began: nat, l: Loop, ticks: nat, k: nat)
    requires ValidConfig(c) && LoopInv(c, l) && c.refreshTimeout < BestOffset(c)
    requires OnSchedule(c, began, l, ticks) && k <= ticks && InstalledAfterTick(c, began, l, k)
    ensures l.nextTick <= l.state.refreshedAt.value + MaxAge(c)
  {
    var interval := c.refreshInterval;
    var offset := l.state.refreshedAt.value - (began + k * interval);
    assert (ticks - k) * interval == ticks * interval - k * interval;
    assert (ticks - k + 1) * interval == (ticks - k) * interval + interval;
    assert (ticks + 1) * interval == ticks * interval + interval;
    IntervalsWithin(ticks - k, c.maxStale, offset, interval);
  }

  lemma VisibleNoOlder(c: Config, l: Loop, load: Load, t: nat, shown: SnapshotState)
    requires ValidConfig(c) && LoopInv(c, l) && Visible(c, l, load, t, shown) && shown.tenants != map[]
    requires l.state.refreshedAt.Some? ==> l.nextTick <= l.state.refreshedAt.value + MaxAge(c)
    requires l.state.refreshedAt.Some? ==> l.ended <= l.nextTick
    ensures shown.refreshedAt.Some? && shown.refreshedAt.value <= t <= shown.refreshedAt.value + MaxAge(c)
  {
    MaxAgeReachesLimit(c);
  }

  /** Over every run of the loop no visible snapshot is older than `MaxAge`. */
  lemma AgeNeverExceeds(c: Config, initial: SnapshotState, began: nat, loads: seq<Load>, load: Load,
                        t: nat, shown: SnapshotState)
    requires ValidConfig(c) && StartsAs(initial, began)
    requires Visible(c, Ran(c, Started(c, initial, began), loads), load, t, shown)
    requires shown.tenants != map[]
    ensures shown.refreshedAt.Some? && shown.refreshedAt.value <= t <= shown.refreshedAt.value + MaxAge(c)
  {
    var start := Started(c, initial, began);
    var l := Ran(c, start, loads);
    VisibleSnapshotAge(c, initial, began, loads, load, t, shown);
    if c.refreshTimeout < BestOffset(c) {
      assert start.state.refreshedAt.Some? ==> InstalledAfterTick(c, began, start, 0);
      RunStaysOnSchedule(c, began, start, 0, loads);
      if l.state.refreshedAt.Some? {
        var k :| 0 <= k <= |loads| && InstalledAfterTick(c, began, l, k);
        ScheduledAge(c, began, l, |loads|, k);
      }
      VisibleNoOlder(c, l, load, t, shown);
    }
  }

  /** One load that takes `offset`, then loads that fail at once. */
  function StaleLoads(snapshot: Snapshot, offset: nat, failures: nat): seq<Load> {
    if failures == 0 then [Loads(snapshot, offset)] else StaleLoads(snapshot, offset, failures - 1) + [Fails(0)]
  }

  lemma {:induction false} StaleRun(c: Config, snapshot: Snapshot, offset: nat, failures: nat)
    requires ValidConfig(c) && offset <= c.refreshTimeout && offset < c.refreshInterval
    requires failures * c.refreshInterval < c.maxStale + offset
    ensures var end := Ran(c, Started(c, EMPTY, 0), StaleLoads(snapshot, offset, failures));
            && end.state == SnapshotState(snapshot, Some(c.refreshInterval + offset))
            && end.nextTick == (failures + 2) * c.refreshInterval
            && end.ended <= end.nextTick
  {
    var l := Started(c, EMPTY, 0);
    if failures == 0 {
      RanSnoc(c, l, [], Loads(snapshot, offset));
      assert [] + [Loads(snapshot, offset)] == StaleLoads(snapshot, offset, 0);
    } else {
      assert (failures - 1) * c.refreshInterval == failures * c.refreshInterval - c.refreshInterval;
      assert (failures + 1) * c.refreshInterval == failures * c.refreshInterval + c.refreshInterval;
      assert (failures + 2) * c.refreshInterval == (failures + 1) * c.refreshInterval + c.refreshInterval;
      StaleRun(c, snapshot, offset, failures - 1);
      RanSnoc(c, l, StaleLoads(snapshot, offset, failures - 1), Fails(0));
    }
  }

  /** How many failures a snapshot survives, and how old it is when the next refresh looks at it. */
  lemma OldestAt(c: Config, offset: nat, failures: nat)
    requires ValidConfig(c)
    requires offset == if BestOffset(c) <= c.refreshTimeout then BestOffset(c) else 0
    requires failures == (c.maxStale - 1 + offset) / c.refreshInterval
    ensures offset < c.refreshInterval && failures * c.refreshInterval < c.maxStale + offset
    ensures (failures + 1) * c.refreshInterval == MaxAge(c) + offset
  {
    var interval := c.refreshInterval;
    var q, past := (c.maxStale - 1) / interval, (c.maxStale - 1) % interval;
    DivisionBounds(c.maxStale - 1, interval);
    DivisionBounds(c.maxStale - 1 + offset, interval);
    if BestOffset(c) <= c.refreshTimeout && past != 0 {
      assert c.maxStale - 1 + offset == (q + 1) * interval;
      FewerMultiples(q + 1, failures + 1, interval);
      FewerMultiples(failures, q + 2, interval) by {
        assert (q + 2) * interval == (q + 1) * interval + interval;
      }
    }
  }

  /** The bound is attained: in every configuration some run shows a snapshot of that age. */
  lemma MaxAgeAttained(c: Config, snapshot: Snapshot, load: Load) returns (loads: seq<Load>, installed: nat)
    requires ValidConfig(c)
    ensures Visible(c, Ran(c, Started(c, EMPTY, 0), loads), load, installed + MaxAge(c),
                    SnapshotState(snapshot, Some(installed)))
  {
    var offset := if BestOffset(c) <= c.refreshTimeout then BestOffset(c) else 0;
    var failures := (c.maxStale - 1 + offset) / c.refreshInterval;
    OldestAt(c, offset, failures);
    StaleRun(c, snapshot, offset, failures);
    loads, installed := StaleLoads(snapshot, offset, failures), c.refreshInterval + offset;
    assert (failures + 2) * c.refreshInterval == (failures + 1) * c.refreshInterval + c.refreshInterval;
  }

  /** A refresh is never denied its time altogether. */
  lemma BudgetNeverZero(c: Config, s: SnapshotState, now: nat)
    requires ValidConfig(c) && Past(s, now)
    ensures 0 < Budget(c, s, now) <= c.refreshTimeout
    ensures s.tenants != map[] && s.refreshedAt.Some? && now < s.refreshedAt.value + c.maxStale ==>
              now + Budget(c, s, now) <= s.refreshedAt.value + c.maxStale
  {
  }

  /** The moment from which a snapshot is stale; one that was never installed is not. */
  predicate FreshAt(c: Config, s: SnapshotState, t: nat) {
    s.refreshedAt.Some? ==> t < s.refreshedAt.value + c.maxStale
  }

  /** What one refresh does, whatever the load: a load that succeeds in time is installed with the time at which
      it ended, and anything else leaves the snapshot alone until it reaches the limit, and empties it then. The
      time allowed is the timeout, or what is left until a nonempty snapshot reaches the limit. */
  lemma RefreshExact(c: Config, s: SnapshotState, now: nat, load: Load)
    requires ValidConfig(c) && Past(s, now)
    ensures var r := Refresh(c, s, now, load);
            var left := if s.tenants != map[] && s.refreshedAt.Some? && FreshAt(c, s, now)
                        then s.refreshedAt.value + c.maxStale - now else c.refreshTimeout;
            var allowed := if left < c.refreshTimeout then left else c.refreshTimeout;
            && r.ended == now + (if load.Hangs? || allowed < load.took then allowed else load.took)
            && (r.installed <==> load.Loads? && load.took <= allowed)
            && (r.installed ==> r.state == SnapshotState(load.snapshot, Some(r.ended)))
            && (!r.installed ==> r.state == if FreshAt(c, s, r.ended) then s else SnapshotState(map[], None))
  {
  }

  /** Over a run in which nothing is loaded, with any mix of errors, panics and hangs, the snapshot that the run
      found is kept as it is until it reaches the limit, and is gone from then on. */
  lemma {:induction false} KeptUntilLimit(c: Config, l: Loop, loads: seq<Load>)
    requires ValidConfig(c) && LoopInv(c, l) && forall load | load in loads :: !load.Loads?
    ensures var end := Ran(c, l, loads);
            && l.ended <= end.ended
            && end.state == if FreshAt(c, l.state, end.ended) then l.state else SnapshotState(map[], None)
    decreases |loads|
  {
    if loads != [] {
      assert loads[0] in loads;
      TickKeepsInv(c, l, loads[0]);
      RefreshExact(c, l.state, NextStart(l), loads[0]);
      KeptUntilLimit(c, Ticked(c, l, loads[0]), loads[1..]);
    }
  }

  /** The last load that was installed is what a run ends with, if nothing was installed after it and it has
      not reached the limit by the end. */
  lemma InstalledIsKept(c: Config, l: Loop, loads: seq<Load>, load: Load, later: seq<Load>)
    requires ValidConfig(c) && LoopInv(c, l) && forall other | other in later :: !other.Loads?
    requires var before := Ran(c, l, loads); Refresh(c, before.state, NextStart(before), load).installed
    ensures var before := Ran(c, l, loads);
            var installed := NextStart(before) + load.took;
            var end := Ran(c, l, loads + [load] + later);
            && end.ended >= installed
            && end.state == if end.ended < installed + c.maxStale then SnapshotState(load.snapshot, Some(installed))
                            else SnapshotState(map[], None)
  {
    var before := Ran(c, l, loads);
    RanSnoc(c, l, loads, load);
    RanParts(c, l, loads + [load], later);
    RefreshExact(c, before.state, NextStart(before), load);
    KeptUntilLimit(c, Ran(c, l, loads + [load]), later);
  }

  lemma {:induction false} RanParts(c: Config, l: Loop, a: seq<Load>, b: seq<Load>)
    requires ValidConfig(c) && LoopInv(c, l)
    ensures Ran(c, l, a + b) == Ran(c, Ran(c, l, a), b)
    decreases |a|
  {
    if a == [] {
      assert a + b == b;
    } else {
      TickKeepsInv(c, l, a[0]);
      RanParts(c, Ticked(c, l, a[0]), a[1..], b);
      assert (a + b)[1..] == a[1..] + b;
    }
  }

  /** However long the refreshes take, tick k stays k intervals after the first. */
  lemma {:induction false} TicksStayPut(c: Config, l: Loop, loads: seq<Load>)
    requires ValidConfig(c) && LoopInv(c, l)
    ensures Ran(c, l, loads).nextTick == l.nextTick + |loads| * c.refreshInterval
    decreases |loads|
  {
    if loads != [] {
      var rest := loads[1..];
      TickKeepsInv(c, l, loads[0]);
      TicksStayPut(c, Ticked(c, l, loads[0]), rest);
      assert (|rest| + 1) * c.refreshInterval == |rest| * c.refreshInterval + c.refreshInterval;
    }
  }

  /** Recovery: if both loads would succeed within the configured timeout, one of two consecutive
      refreshes installs its snapshot, whatever state the first finds. */
  lemma OneOfTwoInstalls(c: Config, l: Loop, first: Load, second: Load)
    requires ValidConfig(c) && Past(l.state, l.ended)
    requires first.Loads? && first.took <= c.refreshTimeout && second.Loads? && second.took <= c.refreshTimeout
    ensures var next := Ticked(c, l, first);
            || (Refresh(c, l.state, NextStart(l), first).installed && next.state.tenants == first.snapshot)
            || (Refresh(c, next.state, NextStart(next), second).installed &&
                Ticked(c, next, second).state.tenants == second.snapshot)
  {
  }

  /** The registry shared by requests and the refresh task. */
  class Registry {
    const config: Config
    var state: SnapshotState

    constructor (config: Config)
      ensures this.config == config && state == EMPTY
    {
      this.config := config;
      state := EMPTY;
    }

    /** From now on a staleness check keeps the snapshot until it reaches the limit, and empties it then. */
    method RefreshFromSnapshot(snapshot: Snapshot, now: nat)
      modifies this
      ensures state.tenants == snapshot && state.refreshedAt == Some(now)
      ensures forall t | now <= t :: Cleared(config, state, t) == if t < now + config.maxStale then state else EMPTY
    {
      state := SnapshotState(snapshot, Some(now));
    }

    method ClearIfStale(now: nat)
      requires Past(state, now)
      modifies this
      ensures state == Cleared(config, old(state), now)
    {
      match state.refreshedAt {
        case None =>
        case Some(refreshedAt) =>
          if now - refreshedAt < config.maxStale {
            return;
          }
          state := EMPTY;
      }
    }

    method RefreshWithLoader(now: nat, load: Load) returns (installed: bool, ended: nat)
      requires Past(state, now)
      modifies this
      ensures Refreshed(state, ended, installed) == Refresh(config, old(state), now, load)
      ensures installed ==>
                load.Loads? && ended == now + load.took && state == SnapshotState(load.snapshot, Some(ended))
      ensures !installed ==> state == if FreshAt(config, old(state), ended) then old(state) else EMPTY
    {
      ClearIfStale(now);
      var budget := Budget(config, state, now);
      if load.Hangs? || budget < load.took {
        ended := now + budget;
        ClearIfStale(ended);
        return false, ended;
      }
      ended := now + load.took;
      if !load.Loads? {
        ClearIfStale(ended);
        return false, ended;
      }
      RefreshFromSnapshot(load.snapshot, ended);
      installed := true;
    }

    /** The refresh task, over a finite prefix of its life. */
    method RefreshLoop(began: nat, loads: seq<Load>) returns (ended: nat, nextTick: nat)
      requires ValidConfig(config) && StartsAs(state, began)
      modifies this
      ensures Loop(state, ended, nextTick) == Ran(config, Started(config, old(state), began), loads)
    {
      ghost var start := Started(config, state, began);
      ended, nextTick := began, began + config.refreshInterval;
      var index := 0;
      while index < |loads|
        invariant 0 <= index <= |loads|
        invariant Loop(state, ended, nextTick) == Ran(config, start, loads[..index])
      {
        RanSnoc(config, start, loads[..index], loads[index]);
        assert loads[..index] + [loads[index]] == loads[..index + 1];
        var now := if nextTick < ended then ended else nextTick;
        var installed, end := RefreshWithLoader(now, loads[index]);
        if !installed {
          ClearIfStale(end);
        }
        ended := end;
        nextTick := nextTick + config.refreshInterval;
        index := index + 1;
      }
      assert loads[..index] == loads;
    }
  }
}
