/** The hypervisor pool: permits, the queue of idle instances, and returns that run as tasks of
    their own.

    Dropping a guard only spawns the task that puts its instance back; the permit is a field of the
    guard and is released after that, without waiting for the task.  Every await point and the two
    halves of a drop are separate steps. */
module HypervisorPool {

  type Instance = nat

  /** A guard: lent out, or dropped with its return and its permit each done or not. */
  datatype Guard = Lent(instance: Instance) | Dropped(instance: Instance, returned: bool, released: bool)

  /** `acquiring` are the calls that have a permit and have not popped yet; such a call may be cancelled
      while it waits for the lock of the queue, and then only its permit goes back. */
  datatype Pool = Pool(
    size: nat,
    available: seq<Instance>,
    permits: nat,
    acquiring: set<nat>,
    guards: map<nat, Guard>)

  datatype Step =
    | TakePermit(id: nat)
    | Pop(id: nat)
    | PopPanics(id: nat)
    | Cancel(id: nat)
    | Drop(id: nat)
    | Return(id: nat)
    | Release(id: nat)

  function Fresh(size: nat): Pool {
    Pool(size, seq(size, i => i), size, {}, map[])
  }

  predicate Enabled(p: Pool, step: Step) {
    match step
    case TakePermit(id) => 0 < p.permits && id !in p.acquiring && id !in p.guards
    case Pop(id) => id in p.acquiring && p.available != []
    case PopPanics(id) => id in p.acquiring && p.available == []
    case Cancel(id) => id in p.acquiring
    case Drop(id) => id in p.guards && p.guards[id].Lent?
    case Return(id) => id in p.guards && p.guards[id].Dropped? && !p.guards[id].returned
    case Release(id) => id in p.guards && p.guards[id].Dropped? && !p.guards[id].released
  }

  function Apply(p: Pool, step: Step): Pool
    requires Enabled(p, step)
  {
    match step
    case TakePermit(id) => p.(permits := p.permits - 1, acquiring := p.acquiring + {id})
    case Pop(id) =>
      p.(available := p.available[1..], acquiring := p.acquiring - {id}, guards := p.guards[id := Lent(p.available[0])])
    case PopPanics(id) => p.(permits := p.permits + 1, acquiring := p.acquiring - {id})
    case Cancel(id) => p.(permits := p.permits + 1, acquiring := p.acquiring - {id})
    case Drop(id) => p.(guards := p.guards[id := Dropped(p.guards[id].instance, false, false)])
    case Return(id) =>
      p.(available := p.available + [p.guards[id].instance], guards := p.guards[id := p.guards[id].(returned := true)])
    case Release(id) => p.(permits := p.permits + 1, guards := p.guards[id := p.guards[id].(released := true)])
  }

  /** The order that would keep the promise of the pop: an instance is back before its permit is. */
  predicate ReturnsFirst(p: Pool, step: Step)
    requires Enabled(p, step)
  {
    step.Release? ==> p.guards[step.id].returned
  }

  ghost predicate Legal(p: Pool, steps: seq<Step>)
    decreases |steps|
  {
    steps == [] || (Enabled(p, steps[0]) && Legal(Apply(p, steps[0]), steps[1..]))
  }

  ghost function Final(p: Pool, steps: seq<Step>): Pool
    requires Legal(p, steps)
    decreases |steps|
  {
    if steps == [] then p else Final(Apply(p, steps[0]), steps[1..])
  }

  ghost predicate ReturnsFirstRun(p: Pool, steps: seq<Step>)
    requires Legal(p, steps)
    decreases |steps|
  {
    steps == [] || (ReturnsFirst(p, steps[0]) && ReturnsFirstRun(Apply(p, steps[0]), steps[1..]))
  }

  // ---------------------------------------------------------------------------------------------
  // Conservation

  /** The guard still has its instance, or its return is pending. */
  predicate Holds(g: Guard) {
    g.Lent? || !g.returned
  }

  predicate HasPermit(g: Guard) {
    g.Lent? || !g.released
  }

  function Holders(p: Pool): set<nat> {
    set id | id in p.guards && Holds(p.guards[id])
  }

  function PermitHolders(p: Pool): set<nat> {
    set id | id in p.guards && HasPermit(p.guards[id])
  }

  /** Returns still pending although their permit is out again. */
  function Overdue(p: Pool): set<nat> {
    set id | id in p.guards && Holds(p.guards[id]) && !HasPermit(p.guards[id])
  }

  /** Returns done although their permit is not out yet. */
  function Early(p: Pool): set<nat> {
    set id | id in p.guards && !Holds(p.guards[id]) && HasPermit(p.guards[id])
  }

  ghost predicate IdleDistinct(p: Pool) {
    forall i, j | 0 <= i < j < |p.available| :: p.available[i] != p.available[j]
  }

  ghost predicate HeldDistinct(p: Pool) {
    forall a, b | a in p.guards && b in p.guards && Holds(p.guards[a]) && Holds(p.guards[b]) && a != b ::
      p.guards[a].instance != p.guards[b].instance
  }

  ghost predicate IdleNotHeld(p: Pool) {
    forall a | a in p.guards && Holds(p.guards[a]) :: p.guards[a].instance !in p.available
  }

  ghost predicate FromThisPool(p: Pool) {
    && (forall i | 0 <= i < |p.available| :: p.available[i] < p.size)
    && (forall a | a in p.guards && Holds(p.guards[a]) :: p.guards[a].instance < p.size)
  }

  /** Every instance is in at most one place: idle, lent, or on its way back. */
  ghost predicate EachOnce(p: Pool) {
    IdleDistinct(p) && HeldDistinct(p) && IdleNotHeld(p) && FromThisPool(p)
  }

  /** Instances and permits are conserved, each by its own count. */
  ghost predicate Counted(p: Pool) {
    && |p.available| + |Holders(p)| == p.size
    && p.permits + |p.acquiring| + |PermitHolders(p)| == p.size
    && forall id | id in p.acquiring :: id !in p.guards
  }

  ghost predicate Inv(p: Pool) {
    EachOnce(p) && Counted(p)
  }

  lemma HeldDistinctKept(p: Pool, step: Step)
    requires HeldDistinct(p) && IdleNotHeld(p) && Enabled(p, step)
    ensures HeldDistinct(Apply(p, step))
  {
    match step
    case Pop(id) => assert p.available[0] in p.available;
    case _ =>
  }

  lemma IdleKept(p: Pool, step: Step)
    requires IdleDistinct(p) && IdleNotHeld(p) && Enabled(p, step)
    ensures IdleDistinct(Apply(p, step))
  {
  }

  lemma IdleNotHeldKept(p: Pool, step: Step)
    requires EachOnce(p) && Enabled(p, step)
    ensures IdleNotHeld(Apply(p, step))
  {
    match step
    case Pop(id) =>
      assert forall x | x in p.available[1..] :: x in p.available;
    case Return(id) =>
    case _ =>
  }

  lemma FromThisPoolKept(p: Pool, step: Step)
    requires FromThisPool(p) && Enabled(p, step)
    ensures FromThisPool(Apply(p, step))
  {
  }

  lemma EachOnceKept(p: Pool, step: Step)
    requires EachOnce(p) && Enabled(p, step)
    ensures EachOnce(Apply(p, step))
  {
    HeldDistinctKept(p, step);
    IdleKept(p, step);
    IdleNotHeldKept(p, step);
    FromThisPoolKept(p, step);
  }

  /** How a step moves guards in and out of the two sets that are counted. */
  lemma HoldersMove(p: Pool, step: Step)
    requires Enabled(p, step) && forall id | id in p.acquiring :: id !in p.guards
    ensures Holders(Apply(p, step)) ==
              if step.Pop? then Holders(p) + {step.id} else if step.Return? then Holders(p) - {step.id} else Holders(p)
    ensures PermitHolders(Apply(p, step)) ==
              if step.Pop? then PermitHolders(p) + {step.id}
              else if step.Release? then PermitHolders(p) - {step.id}
              else PermitHolders(p)
  {
  }

  lemma CountedKept(p: Pool, step: Step)
    requires Counted(p) && Enabled(p, step)
    ensures Counted(Apply(p, step))
  {
    HoldersMove(p, step);
    match step
    case Pop(id) => assert id !in Holders(p) && id !in PermitHolders(p);
    case Return(id) => assert id in Holders(p);
    case Release(id) => assert id in PermitHolders(p);
    case _ =>
  }

  lemma FreshInv(size: nat)
    ensures Inv(Fresh(size))
  {
    assert Holders(Fresh(size)) == {} && PermitHolders(Fresh(size)) == {};
  }

  /** The instances lent by a run, in the order of the pops. */
  ghost function LentBy(p: Pool, steps: seq<Step>): seq<Instance>
    requires Legal(p, steps)
    decreases |steps|
  {
    if steps == [] then []
    else
      var rest := LentBy(Apply(p, steps[0]), steps[1..]);
      if steps[0].Pop? then [p.available[0]] + rest else rest
  }

  /** The instances put back by a run, in the order of the returns. */
  ghost function PutBackBy(p: Pool, steps: seq<Step>): seq<Instance>
    requires Legal(p, steps)
    decreases |steps|
  {
    if steps == [] then []
    else
      var rest := PutBackBy(Apply(p, steps[0]), steps[1..]);
      if steps[0].Return? then [p.guards[steps[0].id].instance] + rest else rest
  }

  /** In every interleaving instances are lent in the order in which they came: the idle ones first, from the
      front, and then those put back. */
  lemma {:induction false} FirstInFirstOut(p: Pool, steps: seq<Step>)
    requires Legal(p, steps)
    ensures p.available + PutBackBy(p, steps) == LentBy(p, steps) + Final(p, steps).available
    decreases |steps|
  {
    if steps == [] {
      assert p.available + [] == [] + p.available;
    } else {
      var next, rest := Apply(p, steps[0]), steps[1..];
      var back, lent, left := PutBackBy(next, rest), LentBy(next, rest), Final(next, rest).available;
      FirstInFirstOut(next, rest);
      if steps[0].Pop? {
        assert p.available == [p.available[0]] + next.available;
        assert p.available + back == [p.available[0]] + (next.available + back);
        assert [p.available[0]] + lent + left == [p.available[0]] + (lent + left);
      } else if steps[0].Return? {
        var instance := p.guards[steps[0].id].instance;
        assert next.available + back == p.available + ([instance] + back);
      }
    }
  }

  /** A guard has the instance that was popped for it until it is dropped, and that instance is put back. */
  lemma GuardKeepsInstance(p: Pool, step: Step, id: nat)
    requires Enabled(p, step) && id in p.guards && (forall other | other in p.acquiring :: other !in p.guards)
    ensures id in Apply(p, step).guards && Apply(p, step).guards[id].instance == p.guards[id].instance
    ensures p.guards[id].Dropped? ==> Apply(p, step).guards[id].Dropped?
  {
  }

  /** In every interleaving no instance is lost or lent twice, and no permit either. */
  lemma {:induction false} Conservation(p: Pool, steps: seq<Step>)
    requires Inv(p) && Legal(p, steps)
    ensures Inv(Final(p, steps)) && Final(p, steps).size == p.size
    decreases |steps|
  {
    if steps != [] {
      EachOnceKept(p, steps[0]);
      CountedKept(p, steps[0]);
      Conservation(Apply(p, steps[0]), steps[1..]);
    }
  }

  /** Idle instances and permits differ by exactly the returns that are overdue or early. */
  lemma IdleBalance(p: Pool)
    requires Counted(p)
    ensures |p.available| + |Overdue(p)| == p.permits + |p.acquiring| + |Early(p)|
  {
    var held, permitted := Holders(p), PermitHolders(p);
    assert held == (held * permitted) + Overdue(p) && (held * permitted) * Overdue(p) == {};
    assert permitted == (held * permitted) + Early(p) && (held * permitted) * Early(p) == {};
  }

  /** The exact law: a call that has its permit finds the queue empty exactly when the overdue
      returns are as many as the permits that are out of guards plus the early returns. */
  lemma PopPanicsExactly(size: nat, steps: seq<Step>, id: nat)
    requires Legal(Fresh(size), steps) && id in Final(Fresh(size), steps).acquiring
    ensures var p := Final(Fresh(size), steps);
            && (Enabled(p, PopPanics(id)) <==> |Overdue(p)| == p.permits + |p.acquiring| + |Early(p)|)
            && (Enabled(p, PopPanics(id)) ==> Overdue(p) != {})
  {
    FreshInv(size);
    Conservation(Fresh(size), steps);
    var p := Final(Fresh(size), steps);
    IdleBalance(p);
    assert p.acquiring != {};
  }

  lemma {:induction false} NoneOverdue(p: Pool, steps: seq<Step>)
    requires Legal(p, steps) && ReturnsFirstRun(p, steps) && Overdue(p) == {}
    ensures Overdue(Final(p, steps)) == {}
    decreases |steps|
  {
    if steps != [] {
      var q := Apply(p, steps[0]);
      forall id | id in q.guards
        ensures !(Holds(q.guards[id]) && !HasPermit(q.guards[id]))
      {
        assert id in p.guards ==> id !in Overdue(p);
      }
      NoneOverdue(q, steps[1..]);
    }
  }

  /** The intended law: if every return precedes the release of its permit, a permit implies that an
      instance is available. */
  lemma PopNeverPanicsInOrder(size: nat, steps: seq<Step>, id: nat)
    requires Legal(Fresh(size), steps) && ReturnsFirstRun(Fresh(size), steps)
    ensures !Enabled(Final(Fresh(size), steps), PopPanics(id))
  {
    assert Overdue(Fresh(size)) == {};
    NoneOverdue(Fresh(size), steps);
    if id in Final(Fresh(size), steps).acquiring {
      PopPanicsExactly(size, steps, id);
    }
  }

  // ---------------------------------------------------------------------------------------------
  // The panic is reachable in every pool

  lemma {:induction false} Snoc(p: Pool, steps: seq<Step>, step: Step)
    requires Legal(p, steps) && Enabled(Final(p, steps), step)
    ensures Legal(p, steps + [step]) && Final(p, steps + [step]) == Apply(Final(p, steps), step)
    decreases |steps|
  {
    if steps == [] {
      assert steps + [step] == [step] && [step][1..] == [];
    } else {
      Snoc(Apply(p, steps[0]), steps[1..], step);
      assert (steps + [step])[1..] == steps[1..] + [step];
    }
  }

  /** The pool when tasks 0 to k - 1 have taken an instance each. */
  function LentOut(size: nat, k: nat): Pool
    requires k <= size
  {
    Pool(size, seq(size - k, i requires 0 <= i => k + i), size - k, {}, map id: nat | id < k :: Lent(id))
  }

  function LendOut(k: nat): seq<Step> {
    if k == 0 then [] else LendOut(k - 1) + [TakePermit(k - 1)] + [Pop(k - 1)]
  }

  lemma {:induction false} LendingRuns(size: nat, k: nat)
    requires k <= size
    ensures Legal(Fresh(size), LendOut(k)) && Final(Fresh(size), LendOut(k)) == LentOut(size, k)
  {
    if k > 0 {
      LendingRuns(size, k - 1);
      var p := LentOut(size, k - 1);
      Snoc(Fresh(size), LendOut(k - 1), TakePermit(k - 1));
      Snoc(Fresh(size), LendOut(k - 1) + [TakePermit(k - 1)], Pop(k - 1));
      assert Apply(Apply(p, TakePermit(k - 1)), Pop(k - 1)) == LentOut(size, k);
    }
  }

  /** In a pool of any size, one dropped guard is enough: its permit is taken again before the task
      that brings its instance back has run. */
  lemma PanicReachable(size: nat) returns (steps: seq<Step>)
    requires 0 < size
    ensures Legal(Fresh(size), steps) && Enabled(Final(Fresh(size), steps), PopPanics(size))
    ensures !ReturnsFirstRun(Fresh(size), steps)
  {
    LendingRuns(size, size);
    var lent := LendOut(size);
    Snoc(Fresh(size), lent, Drop(0));
    Snoc(Fresh(size), lent + [Drop(0)], Release(0));
    Snoc(Fresh(size), lent + [Drop(0)] + [Release(0)], TakePermit(size));
    steps := lent + [Drop(0)] + [Release(0)] + [TakePermit(size)];
    if ReturnsFirstRun(Fresh(size), steps) {
      PopNeverPanicsInOrder(size, steps, size);
    }
  }

  /** When every guard is gone and every return has run, the pool is as full as it began. */
  lemma QuietPoolIsFull(size: nat, steps: seq<Step>)
    requires Legal(Fresh(size), steps)
    requires var p := Final(Fresh(size), steps);
             p.acquiring == {} && forall id | id in p.guards :: !Holds(p.guards[id]) && !HasPermit(p.guards[id])
    ensures var p := Final(Fresh(size), steps);
            p.permits == size && |p.available| == size && IdleDistinct(p) && FromThisPool(p)
  {
    FreshInv(size);
    Conservation(Fresh(size), steps);
    var p := Final(Fresh(size), steps);
    assert Holders(p) == {} && PermitHolders(p) == {};
  }

  // ---------------------------------------------------------------------------------------------
  // The pool as callers use it

  datatype Outcome = Acquired(instance: Instance) | Cancelled | Panicked

  /** `later` continues `earlier` with steps of other tasks only. */
  ghost predicate OthersRan(earlier: seq<Step>, later: seq<Step>, id: nat) {
    earlier <= later && forall i | |earlier| <= i < |later| :: later[i].id != id
  }

  lemma {:induction false} OthersLeaveAlone(p: Pool, before: seq<Step>, since: seq<Step>, id: nat)
    requires Legal(p, before + since) && forall i | 0 <= i < |since| :: since[i].id != id
    ensures Legal(p, before)
    ensures id in Final(p, before).acquiring <==> id in Final(p, before + since).acquiring
    ensures id in Final(p, before).guards <==> id in Final(p, before + since).guards
    decreases |before| + |since|
  {
    if before != [] {
      assert (before + since)[1..] == before[1..] + since;
      OthersLeaveAlone(Apply(p, before[0]), before[1..], since, id);
    } else if since != [] {
      assert before + since == since && [] + since[1..] == since[1..];
      OthersLeaveAlone(Apply(p, since[0]), [], since[1..], id);
    } else {
      assert before + since == [];
    }
  }

  class HypervisorPool {
    var state: Pool
    ghost const size: nat
    ghost var trace: seq<Step>

    ghost predicate Valid()
      reads this
    {
      Legal(Fresh(size), trace) && state == Final(Fresh(size), trace)
    }

    constructor (size: nat)
      ensures Valid() && this.size == size && state == Fresh(size) && trace == []
    {
      var available: seq<Instance> := [];
      var built := 0;
      while built < size
        invariant built <= size && available == seq(built, i => i)
      {
        available := available + [built];
        built := built + 1;
      }
      this.size := size;
      state := Pool(size, available, size, {}, map[]);
      trace := [];
    }

    method Do(step: Step)
      requires Valid() && Enabled(state, step)
      modifies this
      ensures Valid() && state == Apply(old(state), step) && trace == old(trace) + [step]
    {
      Snoc(Fresh(size), trace, step);
      state := Apply(state, step);
      trace := trace + [step];
    }

    /** Any number of steps of other tasks.  Callers learn nothing else. */
    method Interfere(id: nat)
      requires Valid()
      modifies this
      ensures Valid() && OthersRan(old(trace), trace, id)
    {
    }

    /** Waits for a permit, takes it, waits for the queue and pops, with other tasks running all the while.
        A call that is still waiting may be cancelled. */
    method Acquire(id: nat) returns (r: Outcome)
      requires Valid() && id !in state.acquiring && id !in state.guards
      modifies this
      ensures Valid() && old(trace) <= trace
      ensures r.Acquired? ==> id in state.guards && state.guards[id] == Lent(r.instance)
      ensures r.Cancelled? ==> id !in state.acquiring && id !in state.guards
      ensures r.Panicked? ==> id !in state.acquiring && id !in state.guards && !ReturnsFirstRun(Fresh(size), trace)
    {
      Interfere(id);
      assert old(trace) + trace[|old(trace)|..] == trace;
      OthersLeaveAlone(Fresh(size), old(trace), trace[|old(trace)|..], id);
      if state.permits == 0 {
        return Cancelled;
      }
      Do(TakePermit(id));
      ghost var before := trace;
      Interfere(id);
      assert before + trace[|before|..] == trace;
      OthersLeaveAlone(Fresh(size), before, trace[|before|..], id);
      if * {
        Do(Cancel(id));
        return Cancelled;
      }
      if state.available == [] {
        ghost var upTo := trace;
        if ReturnsFirstRun(Fresh(size), upTo) {
          PopNeverPanicsInOrder(size, upTo, id);
        }
        Do(PopPanics(id));
        OutOfOrderStays(Fresh(size), upTo, PopPanics(id));
        return Panicked;
      }
      var instance := state.available[0];
      Do(Pop(id));
      r := Acquired(instance);
    }

    /** The body of Drop: the return is spawned, not awaited. */
    method DropGuard(id: nat)
      requires Valid() && id in state.guards && state.guards[id].Lent?
      modifies this
      ensures Valid() && state.available == old(state.available) && state.permits == old(state.permits)
      ensures state.guards == old(state.guards)[id := Dropped(old(state.guards[id]).instance, false, false)]
    {
      Do(Drop(id));
    }
  }

  lemma {:induction false} OutOfOrderStays(p: Pool, steps: seq<Step>, step: Step)
    requires Legal(p, steps) && Legal(p, steps + [step]) && !ReturnsFirstRun(p, steps)
    ensures !ReturnsFirstRun(p, steps + [step])
    decreases |steps|
  {
    assert (steps + [step])[1..] == steps[1..] + [step];
    if ReturnsFirst(p, steps[0]) {
      OutOfOrderStays(Apply(p, steps[0]), steps[1..], step);
    }
  }
}
