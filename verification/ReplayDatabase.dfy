/** The PostgreSQL replay store, statement by statement, against a database that other sessions
    change between any two statements.

    `Database` carries the protocol state and the run that led to it, so every fact about legal runs
    applies to what these methods leave behind. */
module ReplayDatabase {
  import opened Encoding
  import opened Options
  import opened ReplayProtocol

  const RECALL_NONCE_HEX_LEN: nat := 64

  datatype StoreError =
    | InvalidNonce
    | InvalidExpiresAt
    | InvalidSafeCutoff
    | InvalidBatchSize
    | TimedOut
    | RowNotFound

  datatype Result<+T> = Ok(value: T) | Err(error: StoreError)

  predicate ValidNonce(nonce: string) {
    |nonce| == RECALL_NONCE_HEX_LEN && IsHex(nonce)
  }

  /** The step belongs to verification id. */
  predicate Touches(step: Step, id: nat) {
    match step
    case ReadClock(i, _, _) => i == id
    case Insert(i) => i == id
    case Extend(i) => i == id
    case Probe(i) => i == id
    case Commit(i) => i == id
    case Rollback(i) => i == id
    case GiveUp(i) => i == id
    case Return(i) => i == id
    case PurgeLock(_, _) => false
    case PurgeDelete(_) => false
    case PurgeCommit => false
    case PurgeRollback => false
  }

  /** `later` continues `earlier` with steps of other sessions only. */
  ghost predicate OthersRan(earlier: seq<Step>, later: seq<Step>, id: nat) {
    earlier <= later && forall i | |earlier| <= i < |later| :: !Touches(later[i], id)
  }

  lemma {:induction false} OthersLeaveAlone(s: State, steps: seq<Step>, id: nat)
    requires Legal(s, steps) && forall i | 0 <= i < |steps| :: !Touches(steps[i], id)
    ensures id in s.runs <==> id in Final(s, steps).runs
    ensures id in s.runs ==> Final(s, steps).runs[id] == s.runs[id]
    decreases |steps|
  {
    if steps != [] {
      OthersLeaveAlone(Apply(s, steps[0]), steps[1..], id);
    }
  }

  predicate OfPurge(step: Step) {
    step.PurgeLock? || step.PurgeDelete? || step.PurgeCommit? || step.PurgeRollback?
  }

  /** `later` continues `earlier` with steps that are not those of a purge. */
  ghost predicate OthersRanBesidePurge(earlier: seq<Step>, later: seq<Step>) {
    earlier <= later && forall i | |earlier| <= i < |later| :: !OfPurge(later[i])
  }

  /** Step n of the trace is the grant of a purge's lock. */
  ghost predicate LockedAt(trace: seq<Step>, n: nat, cutoff: int, batch: nat) {
    n < |trace| && trace[n] == PurgeLock(cutoff, batch) && Legal(Init(), trace[..n])
  }

  /** Nothing can be written while a purge holds the lock. */
  lemma {:induction false} PurgeHoldsRows(s: State, steps: seq<Step>)
    requires Legal(s, steps) && PurgeAlone(s) && s.purge.Some?
    requires forall i | 0 <= i < |steps| :: !OfPurge(steps[i])
    ensures Final(s, steps).purge == s.purge && Final(s, steps).rows == s.rows
    decreases |steps|
  {
    if steps != [] {
      assert !OfPurge(steps[0]);
      PurgeStaysAlone(s, steps[0]);
      PurgeHoldsRows(Apply(s, steps[0]), steps[1..]);
    }
  }

  lemma {:induction false} Split(s: State, a: seq<Step>, b: seq<Step>)
    requires Legal(s, a + b)
    ensures Legal(s, a) && Legal(Final(s, a), b) && Final(s, a + b) == Final(Final(s, a), b)
    decreases |a|
  {
    if a == [] {
      assert a + b == b;
    } else {
      assert (a + b)[1..] == a[1..] + b;
      Split(Apply(s, a[0]), a[1..], b);
    }
  }

  lemma {:induction false} Snoc(s: State, steps: seq<Step>, step: Step)
    requires Legal(s, steps) && Enabled(Final(s, steps), step)
    ensures Legal(s, steps + [step]) && Final(s, steps + [step]) == Apply(Final(s, steps), step)
    decreases |steps|
  {
    if steps == [] {
      assert [step][1..] == [];
      assert steps + [step] == [step];
    } else {
      Snoc(Apply(s, steps[0]), steps[1..], step);
      assert (steps + [step])[1..] == steps[1..] + [step];
    }
  }

  /** The batch of a purge: as many rows below the cutoff as the limit allows, oldest first. */
  ghost predicate OldestExpired(rows: map<RowKey, int>, cutoff: int, batch: nat, victims: set<RowKey>) {
    && victims <= Expired(rows, cutoff)
    && |victims| == (if |Expired(rows, cutoff)| < batch then |Expired(rows, cutoff)| else batch)
    && forall gone, kept | gone in victims && kept in Expired(rows, cutoff) - victims :: rows[gone] <= rows[kept]
  }

  function Expired(rows: map<RowKey, int>, cutoff: int): set<RowKey> {
    set row | row in rows && rows[row] < cutoff
  }

  class Database {
    var state: State
    ghost var trace: seq<Step>

    ghost predicate Valid()
      reads this
    {
      Legal(Init(), trace) && state == Final(Init(), trace)
    }

    constructor ()
      ensures Valid() && state == Init()
    {
      state := Init();
      trace := [];
    }

    method Do(step: Step)
      requires Valid() && Enabled(state, step)
      modifies this
      ensures Valid() && state == Apply(old(state), step) && trace == old(trace) + [step]
    {
      Snoc(Init(), trace, step);
      state := Apply(state, step);
      trace := trace + [step];
    }

    /** Any number of legal steps of other sessions.  Callers learn nothing else. */
    method Interfere(id: nat)
      requires Valid()
      modifies this
      ensures Valid() && OthersRan(old(trace), trace, id)
    {
    }

    ghost method AloneWith(id: nat, before: seq<Step>)
      requires Valid() && Legal(Init(), before) && OthersRan(before, trace, id)
      ensures id in Final(Init(), before).runs <==> id in state.runs
      ensures id in state.runs ==> state.runs[id] == Final(Init(), before).runs[id]
      ensures LocksHeld(state)
    {
      var since := trace[|before|..];
      assert before + since == trace;
      Split(Init(), before, since);
      OthersLeaveAlone(Final(Init(), before), since, id);
      RowNeverLost(Init(), trace, id);
    }

    /** Waits for a statement's locks and executes it, or times out and rolls back. */
    method Execute(id: nat, step: Step) returns (done: bool)
      requires Valid() && id in state.runs && state.runs[id].waiting
      requires match state.runs[id].phase
               case AtClock => step == Insert(id)
               case Conflicted => step == Extend(id)
               case Unextended => step == Probe(id)
               case Inserted => step == Commit(id)
               case Extended => step == Commit(id)
               case Confirmed => step == Commit(id)
               case _ => false
      modifies this
      ensures Valid() && old(trace) <= trace
      ensures id in state.runs && state.runs[id] == old(state.runs[id]).(phase := state.runs[id].phase)
      ensures var phase := state.runs[id].phase;
              if !done then phase.Aborted?
              else match old(state.runs[id].phase)
                   case AtClock => phase.Inserted? || phase.Conflicted?
                   case Conflicted => phase.Extended? || phase.Unextended?
                   case Unextended => phase.Confirmed?
                   case Inserted => phase == Done(Fresh)
                   case _ => phase == Done(Replayed)
    {
      Interfere(id);
      AloneWith(id, old(trace));
      done := false;
      if * {
        done := Enabled(state, step);
      }
      if done {
        Do(step);
        AloneWith(id, trace);
        assert KnowsRow(state.rows, state.runs[id]);
      } else {
        Do(Rollback(id));
      }
    }

    /** One consume, under any interference between its statements. */
    method ConsumeTransaction(id: nat) returns (r: Result<Verdict>)
      requires Valid() && HasPhase(state, id, AtClock) && state.runs[id].waiting
      modifies this
      ensures Valid() && old(trace) <= trace
      ensures id in state.runs && state.runs[id].(phase := AtClock, waiting := true) == old(state.runs[id])
      ensures r.Ok? ==> state.runs[id].phase == Done(r.value) && state.runs[id].waiting
      ensures r.Err? ==> r.error == TimedOut
      ensures r.Err? ==> state.runs[id].phase.Aborted? || (state.runs[id].phase.Done? && !state.runs[id].waiting)
    {
      var ok := Execute(id, Insert(id));
      if !ok {
        return Err(TimedOut);
      }
      var result := Fresh;
      if state.runs[id].phase.Conflicted? {
        ok := Execute(id, Extend(id));
        if !ok {
          return Err(TimedOut);
        }
        if state.runs[id].phase.Unextended? {
          ok := Execute(id, Probe(id));
          if !ok {
            return Err(TimedOut);
          }
          if state.runs[id].phase.RowLost? {
            return Err(RowNotFound);
          }
        }
        result := Replayed;
      }
      ok := Execute(id, Commit(id));
      if !ok {
        return Err(TimedOut);
      }
      ok := *;
      if !ok {
        Do(GiveUp(id));
        return Err(TimedOut);
      }
      r := Ok(result);
    }

    method ConsumeOnce(id: nat) returns (r: Result<Verdict>)
      requires Valid() && HasPhase(state, id, AtClock) && state.runs[id].waiting
      modifies this
      ensures Valid() && old(trace) <= trace
      ensures id in state.runs && state.runs[id].(phase := AtClock, waiting := true) == old(state.runs[id])
      ensures r == Err(InvalidNonce) <==> !ValidNonce(old(state.runs[id].claim.row.nonce))
      ensures r == Err(InvalidNonce) <==>
              var nonce := old(state.runs[id].claim.row.nonce); !(|nonce| == 64 && IsHex(nonce))
      ensures r == Err(InvalidExpiresAt) <==>
              ValidNonce(old(state.runs[id].claim.row.nonce)) && old(state.runs[id].claim.expiresAt) < 0
      ensures r == Err(InvalidNonce) || r == Err(InvalidExpiresAt) ==> trace == old(trace) && state == old(state)
      ensures r.Ok? ==> state.runs[id].phase == Done(r.value) && state.runs[id].waiting
      ensures r.Err? ==> r.error != RowNotFound && !state.runs[id].phase.Verified? && !state.runs[id].phase.Refused?
    {
      var claim := state.runs[id].claim;
      if !ValidNonce(claim.row.nonce) {
        return Err(InvalidNonce);
      }
      if claim.expiresAt < 0 {
        return Err(InvalidExpiresAt);
      }
      r := ConsumeTransaction(id);
    }

    /** Any number of legal steps of any session, while this call holds nothing. */
    method InterfereFreely()
      requires Valid()
      modifies this
      ensures Valid() && old(trace) <= trace
    {
    }

    /** Any number of steps of other sessions while this call's purge holds the exclusive lock. */
    method InterfereWithPurge()
      requires Valid() && state.purge.Some?
      modifies this
      ensures Valid() && OthersRanBesidePurge(old(trace), trace)
    {
    }

    ghost method PurgeAloneWith(before: seq<Step>)
      requires Valid() && Legal(Init(), before) && OthersRanBesidePurge(before, trace)
      requires Final(Init(), before).purge.Some?
      ensures state.purge == Final(Init(), before).purge && state.rows == Final(Init(), before).rows
    {
      var since := trace[|before|..];
      assert before + since == trace;
      Split(Init(), before, since);
      RowNeverLost(Init(), before, 0);
      PurgeHoldsRows(Final(Init(), before), since);
    }

    /** The exclusive lock is granted when no transaction holds it shared, and others run before and after. */
    method LockForPurge(cutoff: int, batch: nat) returns (locked: bool, ghost granted: nat)
      requires Valid() && 0 <= cutoff && 1 <= batch <= MAX_PURGE_BATCH
      modifies this
      ensures Valid() && old(trace) <= trace
      ensures locked ==>
                && |old(trace)| <= granted && LockedAt(trace, granted, cutoff, batch)
                && |trace| == granted + 1 && state.purge == Some(Purge(cutoff, batch, {}))
                && state.rows == Final(Init(), trace[..granted]).rows
    {
      InterfereFreely();
      var lock := PurgeLock(cutoff, batch);
      if !Enabled(state, lock) {
        return false, 0;
      }
      ghost var earlier := trace;
      Do(lock);
      assert trace[..|earlier|] == earlier;
      locked, granted := true, |trace| - 1;
    }

    /** The statement once it has the lock.  Giving up on it may come too late to stop it. */
    method DeleteLocked(cutoff: int, batch: nat) returns (r: Result<nat>)
      requires Valid() && state.purge == Some(Purge(cutoff, batch, {}))
      modifies this
      ensures Valid() && old(trace) <= trace && state.purge.None?
      ensures r.Ok? ==>
                PurgedOnce(old(state.rows), state.rows, cutoff, batch) && r.value == |old(state.rows)| - |state.rows|
      ensures r.Err? ==>
                && r.error == TimedOut
                && (state.rows == old(state.rows) || PurgedOnce(old(state.rows), state.rows, cutoff, batch))
    {
      InterfereWithPurge();
      PurgeAloneWith(old(trace));
      var victims := SelectExpired(state.rows, cutoff, batch);
      VictimsCounted(state.rows, cutoff, batch, victims);
      Do(PurgeDelete(victims));
      ghost var upTo := trace;
      InterfereWithPurge();
      PurgeAloneWith(upTo);
      if * {
        Do(PurgeRollback);
        return Err(TimedOut);
      }
      Do(PurgeCommit);
      if * {
        return Err(TimedOut);
      }
      r := Ok(|victims|);
    }

    /** One bounded purge, with other sessions running in between.  `granted` is where in the trace the
        lock was granted; the table it found is the one the trace before it leads to. */
    method PurgeExpiredBefore(cutoff: int, batch: nat) returns (r: Result<nat>, ghost granted: Option<nat>)
      requires Valid()
      modifies this
      ensures Valid() && old(trace) <= trace
      ensures cutoff < 0 ==> r == Err(InvalidSafeCutoff)
      ensures 0 <= cutoff && !(1 <= batch <= MAX_PURGE_BATCH) ==> r == Err(InvalidBatchSize)
      ensures r == Err(InvalidSafeCutoff) || r == Err(InvalidBatchSize) ==> trace == old(trace) && state == old(state)
      ensures r.Err? ==> r.error in {InvalidSafeCutoff, InvalidBatchSize, TimedOut}
      ensures r.Ok? ==> granted.Some?
      ensures granted.Some? ==>
                && |old(trace)| <= granted.value && LockedAt(trace, granted.value, cutoff, batch)
                && state.purge.None?
                && var before := Final(Init(), trace[..granted.value]).rows;
                   && (r.Ok? ==>
                         PurgedOnce(before, state.rows, cutoff, batch) && r.value == |before| - |state.rows|)
                   && (r.Err? ==> state.rows == before || PurgedOnce(before, state.rows, cutoff, batch))
    {
      granted := None;
      if cutoff < 0 {
        return Err(InvalidSafeCutoff), None;
      }
      if batch < 1 || MAX_PURGE_BATCH < batch {
        return Err(InvalidBatchSize), None;
      }
      var locked, at := LockForPurge(cutoff, batch);
      if !locked {
        return Err(TimedOut), None;
      }
      granted := Some(at);
      ghost var upTo := trace;
      r := DeleteLocked(cutoff, batch);
      assert trace[..at] == upTo[..at] && trace[at] == upTo[at];
    }
  }

  /** The rows the purge statement selects, in order of expiry. */
  method SelectExpired(rows: map<RowKey, int>, cutoff: int, batch: nat) returns (victims: set<RowKey>)
    ensures OldestExpired(rows, cutoff, batch, victims)
  {
    victims := {};
    var left := Expired(rows, cutoff);
    while left != {} && |victims| < batch
      invariant victims !! left && victims + left == Expired(rows, cutoff)
      invariant |victims| <= batch
      invariant forall gone, kept | gone in victims && kept in left :: rows[gone] <= rows[kept]
      decreases left
    {
      assert left <= rows.Keys;
      ghost var first := OldestExists(rows, left);
      var oldest :| oldest in left && Oldest(rows, left, oldest);
      assert Oldest(rows, left, oldest);
      victims := victims + {oldest};
      left := left - {oldest};
    }
    assert |victims| + |left| == |victims + left|;
    assert Expired(rows, cutoff) - victims == left;
  }

  predicate Oldest(rows: map<RowKey, int>, keys: set<RowKey>, row: RowKey)
    requires keys <= rows.Keys
  {
    row in keys && forall other | other in keys :: rows[row] <= rows[other]
  }

  lemma {:induction false} OldestExists(rows: map<RowKey, int>, keys: set<RowKey>) returns (oldest: RowKey)
    requires keys != {} && keys <= rows.Keys
    ensures Oldest(rows, keys, oldest)
    decreases keys
  {
    var key :| key in keys;
    var rest := keys - {key};
    oldest := key;
    if rest != {} {
      var best := OldestExists(rows, rest);
      if rows[best] < rows[key] {
        oldest := best;
      }
    }
    forall other | other in keys
      ensures rows[oldest] <= rows[other]
    {
      assert other == key || other in rest;
    }
  }

  /** What a purge deletes is what is missing afterwards. */
  lemma VictimsCounted(before: map<RowKey, int>, cutoff: int, batch: nat, victims: set<RowKey>)
    requires OldestExpired(before, cutoff, batch, victims)
    ensures PurgedOnce(before, before - victims, cutoff, batch)
    ensures |victims| == |before| - |before - victims|
  {
    assert before.Keys == (before - victims).Keys + victims;
  }

  ghost predicate PurgedOnce(before: map<RowKey, int>, after: map<RowKey, int>, cutoff: int, batch: nat) {
    exists victims :: OldestExpired(before, cutoff, batch, victims) && after == before - victims
  }

  /** Consecutive purges at one cutoff, with nothing else running. */
  ghost predicate PurgeChain(tables: seq<map<RowKey, int>>, cutoff: int, batch: nat) {
    forall i | 0 <= i < |tables| - 1 :: PurgedOnce(tables[i], tables[i + 1], cutoff, batch)
  }

  /** After n purges the table keeps every row at or above the cutoff, and max(0, expired - n * batch)
      of the others: enough purges drain the expired rows, and no purge ever takes another row. */
  lemma {:induction false} PurgesDrain(tables: seq<map<RowKey, int>>, cutoff: int, batch: nat)
    requires tables != [] && PurgeChain(tables, cutoff, batch)
    ensures var first, last, n := tables[0], tables[|tables| - 1], |tables| - 1;
            && last - Expired(last, cutoff) == first - Expired(first, cutoff)
            && |Expired(last, cutoff)| ==
               (if |Expired(first, cutoff)| <= n * batch then 0 else |Expired(first, cutoff)| - n * batch)
    decreases |tables|
  {
    if |tables| > 1 {
      var n := |tables| - 1;
      var front := tables[..n];
      forall i | 0 <= i < |front| - 1
        ensures PurgedOnce(front[i], front[i + 1], cutoff, batch)
      {
        assert PurgedOnce(tables[i], tables[i + 1], cutoff, batch);
      }
      PurgesDrain(front, cutoff, batch);
      assert PurgedOnce(tables[n - 1], tables[n - 1 + 1], cutoff, batch);
      var victims :| OldestExpired(tables[n - 1], cutoff, batch, victims) && tables[n] == tables[n - 1] - victims;
      PurgeShrinks(tables[n - 1], cutoff, batch, victims);
      assert n * batch == (n - 1) * batch + batch;
    }
  }

  lemma PurgeShrinks(rows: map<RowKey, int>, cutoff: int, batch: nat, victims: set<RowKey>)
    requires OldestExpired(rows, cutoff, batch, victims)
    ensures |Expired(rows - victims, cutoff)| == |Expired(rows, cutoff)| - |victims|
    ensures (rows - victims) - Expired(rows - victims, cutoff) == rows - Expired(rows, cutoff)
  {
    var after := rows - victims;
    assert Expired(after, cutoff) == Expired(rows, cutoff) - victims;
    assert |Expired(rows, cutoff) - victims| + |victims| == |Expired(rows, cutoff)| by {
      assert Expired(rows, cutoff) == (Expired(rows, cutoff) - victims) + victims;
    }
    assert (after - Expired(after, cutoff)).Keys == (rows - Expired(rows, cutoff)).Keys;
  }
}
