/** The shared replay table as a protocol of interleaved steps.

    Any number of verifications and purges run at once.  A verification reads its clock and checks
    the validity window, and only later consumes the nonce in a transaction made of up to three
    statements; a purge deletes expired rows in a transaction of its own.  Every consume holds the
    advisory lock shared, every purge holds it exclusively, both to the end of the transaction.  A
    statement that would wait for a lock is a step that is not enabled.  A transaction may be rolled
    back at any point, and a caller may stop waiting at any point, even while its commit is under way.

    `Apply` is the step function, `Legal` says that each step of a run was enabled, and
    `Disciplined` is the side condition that the storage layer leaves to the caller of a purge. */
module ReplayProtocol {
  import opened Encoding
  import opened Lists
  import opened Options

  /** Primary key of the table: replay namespace and nonce. */
  datatype RowKey = RowKey(ns: Bytes, nonce: string)

  /** What a verified envelope asks the store to consume. */
  datatype Claim = Claim(row: RowKey, expiresAt: int)

  datatype Verdict = Fresh | Replayed

  /** Progress of one verification.  The six phases from Inserted to Confirmed are inside the
      transaction; RowLost is the branch that reports a missing row. */
  datatype Phase =
    | AtClock
    | Inserted
    | Conflicted
    | Extended
    | Unextended
    | Confirmed
    | RowLost
    | Aborted
    | Done(verdict: Verdict)
    | Verified
    | Refused

  datatype Verification = Verification(claim: Claim, now: int, phase: Phase, waiting: bool)

  /** A purge that holds the exclusive lock, with the rows its statement has deleted so far. */
  datatype Purge = Purge(cutoff: int, batch: nat, victims: set<RowKey>)

  /** `rows` holds committed rows and their expiry; an uncommitted write lives in the phase of its
      verification.  `settled` and `horizon` are history: the claims whose consume has committed,
      and the highest cutoff any purge has used. */
  datatype State = State(
    rows: map<RowKey, int>,
    runs: map<nat, Verification>,
    purge: Option<Purge>,
    settled: set<Claim>,
    horizon: int)

  datatype Step =
    | ReadClock(id: nat, claim: Claim, now: int)
    | Insert(id: nat)
    | Extend(id: nat)
    | Probe(id: nat)
    | Commit(id: nat)
    | Rollback(id: nat)
    | GiveUp(id: nat)
    | Return(id: nat)
    | PurgeLock(cutoff: int, batch: nat)
    | PurgeDelete(victims: set<RowKey>)
    | PurgeCommit
    | PurgeRollback

  const MAX_PURGE_BATCH: nat := 10_000

  function Init(): State {
    State(map[], map[], None, {}, 0)
  }

  predicate InTransaction(p: Phase) {
    p.Inserted? || p.Conflicted? || p.Extended? || p.Unextended? || p.Confirmed?
  }

  /** The verification holds the row lock that an uncommitted insert or update takes. */
  predicate Writes(v: Verification, row: RowKey) {
    (v.phase.Inserted? || v.phase.Extended?) && v.claim.row == row
  }

  predicate RowFree(s: State, id: nat, row: RowKey) {
    forall other | other in s.runs && other != id :: !Writes(s.runs[other], row)
  }

  /** The envelope is inside its validity window at the clock reading. */
  predicate Timely(claim: Claim, now: int) {
    0 <= now < claim.expiresAt
  }

  predicate HasPhase(s: State, id: nat, p: Phase) {
    id in s.runs && s.runs[id].phase == p
  }

  predicate Enabled(s: State, step: Step) {
    match step
    case ReadClock(id, claim, now) => id !in s.runs && Timely(claim, now)
    case Insert(id) =>
      // A conflict with a committed row does not wait for the session that is changing it.
      HasPhase(s, id, AtClock) && s.purge.None? &&
      (s.runs[id].claim.row in s.rows || RowFree(s, id, s.runs[id].claim.row))
    case Extend(id) =>
      HasPhase(s, id, Conflicted) && RowFree(s, id, s.runs[id].claim.row)
    case Probe(id) => HasPhase(s, id, Unextended)
    case Commit(id) => HasPhase(s, id, Inserted) || HasPhase(s, id, Extended) || HasPhase(s, id, Confirmed)
    case Rollback(id) => id in s.runs && (s.runs[id].phase.AtClock? || InTransaction(s.runs[id].phase))
    case GiveUp(id) => id in s.runs && s.runs[id].waiting
    case Return(id) => id in s.runs && s.runs[id].phase.Done? && s.runs[id].waiting
    case PurgeLock(cutoff, batch) =>
      0 <= cutoff && 1 <= batch <= MAX_PURGE_BATCH && s.purge.None? &&
      forall id | id in s.runs :: !InTransaction(s.runs[id].phase)
    case PurgeDelete(victims) =>
      s.purge.Some? && s.purge.value.victims == {} && |victims| <= s.purge.value.batch &&
      forall row | row in victims :: row in s.rows && s.rows[row] < s.purge.value.cutoff
    case PurgeCommit => s.purge.Some?
    case PurgeRollback => s.purge.Some?
  }

  function Move(s: State, id: nat, p: Phase): State
    requires id in s.runs
  {
    s.(runs := s.runs[id := s.runs[id].(phase := p)])
  }

  function Apply(s: State, step: Step): State
    requires Enabled(s, step)
  {
    match step
    case ReadClock(id, claim, now) => s.(runs := s.runs[id := Verification(claim, now, AtClock, true)])
    case Insert(id) => Move(s, id, if s.runs[id].claim.row in s.rows then Conflicted else Inserted)
    case Extend(id) =>
      var c := s.runs[id].claim;
      Move(s, id, if c.row in s.rows && s.rows[c.row] < c.expiresAt then Extended else Unextended)
    case Probe(id) => Move(s, id, if s.runs[id].claim.row in s.rows then Confirmed else RowLost)
    case Commit(id) =>
      var v := s.runs[id];
      var after := Move(s, id, Done(if v.phase.Inserted? then Fresh else Replayed));
      after.(rows := if v.phase.Confirmed? then s.rows else s.rows[v.claim.row := v.claim.expiresAt],
             settled := s.settled + {v.claim})
    case Rollback(id) => Move(s, id, Aborted)
    case GiveUp(id) => s.(runs := s.runs[id := s.runs[id].(waiting := false)])
    case Return(id) => Move(s, id, if s.runs[id].phase.verdict.Fresh? then Verified else Refused)
    case PurgeLock(cutoff, batch) =>
      s.(purge := Some(Purge(cutoff, batch, {})), horizon := if cutoff > s.horizon then cutoff else s.horizon)
    case PurgeDelete(victims) => s.(purge := Some(s.purge.value.(victims := victims)))
    case PurgeCommit => s.(rows := s.rows - s.purge.value.victims, purge := None)
    case PurgeRollback => s.(purge := None)
  }

  /** The caller's obligation, with some slack: when a purge starts, its cutoff is at most `slack`
      above the clock reading of every verification that has not consumed yet, and a verification
      that reads its clock afterwards reads no less than that either. */
  ghost predicate Disciplined(s: State, step: Step, slack: int) {
    match step
    case PurgeLock(cutoff, _) =>
      forall id | id in s.runs && s.runs[id].phase.AtClock? :: cutoff <= s.runs[id].now + slack
    case ReadClock(_, _, now) => s.horizon <= now + slack
    case _ => true
  }

  /** Every step of the run is enabled where it is taken. */
  ghost predicate Legal(s: State, steps: seq<Step>)
    decreases |steps|
  {
    steps == [] || (Enabled(s, steps[0]) && Legal(Apply(s, steps[0]), steps[1..]))
  }

  ghost function Final(s: State, steps: seq<Step>): State
    requires Legal(s, steps)
    decreases |steps|
  {
    if steps == [] then s else Final(Apply(s, steps[0]), steps[1..])
  }

  ghost predicate DisciplinedRun(s: State, steps: seq<Step>, slack: int)
    requires Legal(s, steps)
    decreases |steps|
  {
    steps == [] || (Disciplined(s, steps[0], slack) && DisciplinedRun(Apply(s, steps[0]), steps[1..], slack))
  }

  // ---------------------------------------------------------------------------------------------
  // Safety

  /** No two verifications of one claim have both been returned as verified. */
  ghost predicate VerifiedAtMostOnce(s: State) {
    forall a, b | HasPhase(s, a, Verified) && HasPhase(s, b, Verified) && a != b ::
      s.runs[a].claim != s.runs[b].claim
  }

  /** A settled claim can never be taken for fresh again: its row is still there and outlives it, or
      the cutoffs have passed its expiry. */
  predicate Remembered(s: State, c: Claim) {
    (c.row in s.rows && c.expiresAt <= s.rows[c.row]) || c.expiresAt < s.horizon
  }

  /** A purge excludes transactions, and deletes only rows below its cutoff. */
  ghost predicate PurgeAlone(s: State) {
    s.purge.Some? ==>
      && s.purge.value.cutoff <= s.horizon
      && (forall row | row in s.purge.value.victims :: row in s.rows && s.rows[row] < s.purge.value.cutoff)
      && (forall id | id in s.runs :: !InTransaction(s.runs[id].phase))
  }

  /** An uncommitted write excludes any other uncommitted write of its row. */
  ghost predicate OneWriter(s: State) {
    forall a, b | a in s.runs && b in s.runs && a != b && Writes(s.runs[a], s.runs[a].claim.row) ::
      !Writes(s.runs[b], s.runs[a].claim.row)
  }

  /** What a verification in a given phase knows about the committed rows. */
  predicate KnowsRow(rows: map<RowKey, int>, v: Verification) {
    match v.phase
    case Inserted => v.claim.row !in rows
    case Conflicted => v.claim.row in rows
    case Extended => v.claim.row in rows && rows[v.claim.row] < v.claim.expiresAt
    case Unextended => v.claim.row in rows && v.claim.expiresAt <= rows[v.claim.row]
    case Confirmed => v.claim.row in rows && v.claim.expiresAt <= rows[v.claim.row]
    case RowLost => false
    case _ => true
  }

  ghost predicate LocksHeld(s: State) {
    PurgeAlone(s) && OneWriter(s) && forall id | id in s.runs :: KnowsRow(s.rows, s.runs[id])
  }

  /** Every clock reading was inside its validity window, and nothing still to be consumed was read
      more than one tick before a cutoff. */
  ghost predicate ClocksAhead(s: State) {
    forall id | id in s.runs ::
      Timely(s.runs[id].claim, s.runs[id].now) &&
      (s.runs[id].phase.AtClock? ==> s.horizon <= s.runs[id].now + 1)
  }

  /** A verification that has won, or will if it commits. */
  predicate Winner(v: Verification) {
    v.phase.Inserted? || v.phase == Done(Fresh) || v.phase.Verified?
  }

  ghost predicate WinnersDiffer(s: State) {
    forall a, b | a in s.runs && b in s.runs && a != b && Winner(s.runs[a]) && Winner(s.runs[b]) ::
      s.runs[a].claim != s.runs[b].claim
  }

  ghost predicate History(s: State) {
    && (forall c | c in s.settled :: Remembered(s, c))
    && (forall id | id in s.runs :: SettledWhenDone(s, s.runs[id]))
    && WinnersDiffer(s)
  }

  predicate SettledWhenDone(s: State, v: Verification) {
    && (v.phase.Done? || v.phase.Verified? ==> v.claim in s.settled)
    && (v.phase.Inserted? ==> v.claim !in s.settled)
  }

  lemma PurgeStaysAlone(s: State, step: Step)
    requires PurgeAlone(s) && Enabled(s, step)
    ensures PurgeAlone(Apply(s, step))
  {
    match step
    case Commit(id) => assert InTransaction(s.runs[id].phase);
    case _ =>
  }

  lemma OneWriterKept(s: State, step: Step)
    requires OneWriter(s) && Enabled(s, step)
    ensures OneWriter(Apply(s, step))
  {
  }

  lemma RowsStayKnown(s: State, step: Step)
    requires LocksHeld(s) && Enabled(s, step)
    ensures forall id | id in Apply(s, step).runs :: KnowsRow(Apply(s, step).rows, Apply(s, step).runs[id])
  {
  }

  lemma LocksKept(s: State, step: Step)
    requires LocksHeld(s) && Enabled(s, step)
    ensures LocksHeld(Apply(s, step))
  {
    PurgeStaysAlone(s, step);
    OneWriterKept(s, step);
    RowsStayKnown(s, step);
  }

  lemma ClocksKept(s: State, step: Step, slack: int)
    requires ClocksAhead(s) && Enabled(s, step) && Disciplined(s, step, slack) && slack <= 1
    ensures ClocksAhead(Apply(s, step))
  {
  }

  lemma SettledRemembered(s: State, step: Step)
    requires LocksHeld(s) && Enabled(s, step)
    requires forall c | c in s.settled :: Remembered(s, c)
    ensures forall c | c in Apply(s, step).settled :: Remembered(Apply(s, step), c)
  {
  }

  lemma PhasesSettled(s: State, step: Step)
    requires LocksHeld(s) && ClocksAhead(s) && History(s) && Enabled(s, step)
    ensures forall id | id in Apply(s, step).runs :: SettledWhenDone(Apply(s, step), Apply(s, step).runs[id])
  {
  }

  lemma WinnersStayDifferent(s: State, step: Step)
    requires ClocksAhead(s) && History(s) && Enabled(s, step)
    ensures WinnersDiffer(Apply(s, step))
  {
  }

  lemma HistoryKept(s: State, step: Step)
    requires LocksHeld(s) && ClocksAhead(s) && History(s) && Enabled(s, step)
    ensures History(Apply(s, step))
  {
    SettledRemembered(s, step);
    PhasesSettled(s, step);
    WinnersStayDifferent(s, step);
  }

  ghost predicate Inv(s: State) {
    LocksHeld(s) && ClocksAhead(s) && History(s)
  }

  lemma InvKept(s: State, step: Step, slack: int)
    requires Inv(s) && Enabled(s, step) && Disciplined(s, step, slack) && slack <= 1
    ensures Inv(Apply(s, step))
    ensures s.settled <= Apply(s, step).settled
  {
    LocksKept(s, step);
    ClocksKept(s, step, slack);
    HistoryKept(s, step);
  }

  lemma {:induction false} InvOverRun(s: State, steps: seq<Step>, slack: int)
    requires Inv(s) && Legal(s, steps) && DisciplinedRun(s, steps, slack) && slack <= 1
    ensures Inv(Final(s, steps))
    decreases |steps|
  {
    if steps != [] {
      InvKept(s, steps[0], slack);
      InvOverRun(Apply(s, steps[0]), steps[1..], slack);
    }
  }

  /** In every interleaving of verifications, rollbacks, abandoned calls and purges, a claim is
      returned as verified at most once. */
  lemma AtMostOnce(steps: seq<Step>, slack: int)
    requires Legal(Init(), steps) && DisciplinedRun(Init(), steps, slack) && slack <= 1
    ensures VerifiedAtMostOnce(Final(Init(), steps))
  {
    InvOverRun(Init(), steps, slack);
  }

  /** The branch that reports a missing row is never taken, whatever the cutoffs are. */
  lemma {:induction false} RowNeverLost(s: State, steps: seq<Step>, id: nat)
    requires LocksHeld(s) && Legal(s, steps)
    ensures LocksHeld(Final(s, steps))
    ensures !HasPhase(Final(s, steps), id, RowLost)
    decreases |steps|
  {
    if steps != [] {
      LocksKept(s, steps[0]);
      RowNeverLost(Apply(s, steps[0]), steps[1..], id);
    }
  }

  lemma SettledNotWon(s: State, step: Step, id: nat)
    requires Inv(s) && Enabled(s, step)
    requires id in Apply(s, step).runs && Winner(Apply(s, step).runs[id])
    requires Apply(s, step).runs[id].claim in s.settled
    ensures id in s.runs && Winner(s.runs[id]) && s.runs[id].claim == Apply(s, step).runs[id].claim
  {
    assert Remembered(s, Apply(s, step).runs[id].claim);
  }

  /** Once any consume of a claim has committed, fresh or replayed, no verification that had not
      already won can win with that claim. */
  lemma {:induction false} SettledIsSpent(s: State, steps: seq<Step>, slack: int, id: nat)
    requires Inv(s) && Legal(s, steps) && DisciplinedRun(s, steps, slack) && slack <= 1
    requires id in Final(s, steps).runs && Winner(Final(s, steps).runs[id])
    requires Final(s, steps).runs[id].claim in s.settled
    ensures id in s.runs && Winner(s.runs[id]) && s.runs[id].claim == Final(s, steps).runs[id].claim
    decreases |steps|
  {
    if steps != [] {
      InvKept(s, steps[0], slack);
      SettledIsSpent(Apply(s, steps[0]), steps[1..], slack, id);
      SettledNotWon(s, steps[0], id);
    }
  }

  /** One step: an expiry that stays does not decrease, and a row goes only when a purge commits that
      had selected it below its cutoff. */
  lemma ExpiryStep(s: State, step: Step, row: RowKey)
    requires LocksHeld(s) && Enabled(s, step) && row in s.rows
    ensures row in Apply(s, step).rows ==> s.rows[row] <= Apply(s, step).rows[row]
    ensures row !in Apply(s, step).rows ==>
              step.PurgeCommit? && row in s.purge.value.victims && s.rows[row] < s.purge.value.cutoff
  {
    match step
    case Commit(id) => assert KnowsRow(s.rows, s.runs[id]);
    case _ =>
  }

  /** The row is in the table from the beginning of the run to its end. */
  ghost predicate KeptThroughout(s: State, steps: seq<Step>, row: RowKey)
    requires Legal(s, steps)
    decreases |steps|
  {
    row in s.rows && (steps == [] || KeptThroughout(Apply(s, steps[0]), steps[1..], row))
  }

  /** As long as a row is in the table its expiry never decreases. */
  lemma {:induction false} ExpiryNeverDecreases(s: State, steps: seq<Step>, row: RowKey)
    requires LocksHeld(s) && Legal(s, steps) && KeptThroughout(s, steps, row)
    ensures row in Final(s, steps).rows && s.rows[row] <= Final(s, steps).rows[row]
    decreases |steps|
  {
    if steps != [] {
      LocksKept(s, steps[0]);
      ExpiryStep(s, steps[0], row);
      ExpiryNeverDecreases(Apply(s, steps[0]), steps[1..], row);
    }
  }

  /** A row that does not stay is deleted, the first time, by the commit of a purge whose cutoff is
      above the expiry the row had by then. */
  lemma {:induction false} RowGoesInPurge(s: State, steps: seq<Step>, row: RowKey) returns (k: nat)
    requires LocksHeld(s) && Legal(s, steps) && row in s.rows && !KeptThroughout(s, steps, row)
    ensures k < |steps| && Legal(s, steps[..k]) && KeptThroughout(s, steps[..k], row)
    ensures var t := Final(s, steps[..k]);
            && steps[k] == PurgeCommit && t.purge.Some? && row in t.purge.value.victims
            && row in t.rows && s.rows[row] <= t.rows[row] < t.purge.value.cutoff
    decreases |steps|
  {
    var next := Apply(s, steps[0]);
    LocksKept(s, steps[0]);
    ExpiryStep(s, steps[0], row);
    if row in next.rows {
      var rest := RowGoesInPurge(next, steps[1..], row);
      k := rest + 1;
      assert steps[..k][1..] == steps[1..][..rest];
    } else {
      k := 0;
      assert steps[..0] == [];
    }
  }

  lemma {:induction false} HorizonNeverDecreases(s: State, steps: seq<Step>)
    requires Legal(s, steps)
    ensures s.horizon <= Final(s, steps).horizon
    decreases |steps|
  {
    if steps != [] {
      HorizonNeverDecreases(Apply(s, steps[0]), steps[1..]);
    }
  }

  // ---------------------------------------------------------------------------------------------
  // A discipline that each host can keep on its own

  /** A step with the time it is taken and what the clock of the acting host says then. */
  datatype Timed = Timed(step: Step, at: int, clock: int)

  function StepsOf(timed: seq<Timed>): (steps: seq<Step>)
    ensures |steps| == |timed|
  {
    seq(|timed|, i requires 0 <= i < |timed| => timed[i].step)
  }

  /** What a host checks before its step: a verification reads its clock, and a purge takes a cutoff
      that lies behind its clock by the time a consume may take and twice the error of a clock. */
  predicate Careful(t: Timed, limit: nat, error: nat) {
    match t.step
    case ReadClock(_, _, now) => now == t.clock
    case PurgeLock(cutoff, _) => cutoff <= t.clock - limit - 2 * error
    case _ => true
  }

  /** Time does not go back, no clock is wrong by more than `error`, no verification is left unconsumed
      for longer than `limit` after reading its clock, and every host is careful.  `readAt` is when each
      verification read its clock. */
  ghost predicate Punctual(s: State, timed: seq<Timed>, readAt: map<nat, int>, last: int, limit: nat, error: nat)
    requires Legal(s, StepsOf(timed))
    decreases |timed|
  {
    timed == [] ||
    var t := timed[0];
    assert StepsOf(timed)[1..] == StepsOf(timed[1..]);
    && last <= t.at
    && t.at - error <= t.clock <= t.at + error
    && Careful(t, limit, error)
    && (forall id | id in s.runs && s.runs[id].phase.AtClock? :: id in readAt && t.at <= readAt[id] + limit)
    && Punctual(Apply(s, t.step), timed[1..], if t.step.ReadClock? then readAt[t.step.id := t.at] else readAt,
                t.at, limit, error)
  }

  /** What has been read and cut so far, against the time. */
  ghost predicate ReadingsFit(s: State, readAt: map<nat, int>, last: int, limit: nat, error: nat) {
    && (s.horizon <= last - limit - error || s.horizon <= 0)
    && (forall id | id in s.runs && s.runs[id].phase.AtClock? ::
          id in readAt && readAt[id] <= last && readAt[id] - error <= s.runs[id].now)
  }

  lemma ReadingsStillFit(s: State, t: Timed, readAt: map<nat, int>, last: int, limit: nat, error: nat)
    requires Enabled(s, t.step) && ReadingsFit(s, readAt, last, limit, error)
    requires last <= t.at && t.at - error <= t.clock <= t.at + error && Careful(t, limit, error)
    ensures ReadingsFit(Apply(s, t.step), if t.step.ReadClock? then readAt[t.step.id := t.at] else readAt,
                        t.at, limit, error)
  {
  }

  /** Careful hosts with punctual consumes keep the side condition without any slack. */
  lemma {:induction false} PunctualIsDisciplined(s: State, timed: seq<Timed>, readAt: map<nat, int>, last: int,
                                                 limit: nat, error: nat)
    requires Legal(s, StepsOf(timed)) && Punctual(s, timed, readAt, last, limit, error)
    requires ClocksAhead(s) && ReadingsFit(s, readAt, last, limit, error)
    ensures DisciplinedRun(s, StepsOf(timed), 0)
    decreases |timed|
  {
    if timed != [] {
      var t := timed[0];
      assert StepsOf(timed)[1..] == StepsOf(timed[1..]);
      assert Disciplined(s, t.step, 0);
      ClocksKept(s, t.step, 0);
      ReadingsStillFit(s, t, readAt, last, limit, error);
      PunctualIsDisciplined(Apply(s, t.step), timed[1..],
                            if t.step.ReadClock? then readAt[t.step.id := t.at] else readAt, t.at, limit, error);
    }
  }

  /** So under them a claim is verified at most once. */
  lemma PunctualVerifiesOnce(timed: seq<Timed>, began: int, limit: nat, error: nat)
    requires Legal(Init(), StepsOf(timed)) && Punctual(Init(), timed, map[], began, limit, error)
    ensures VerifiedAtMostOnce(Final(Init(), StepsOf(timed)))
  {
    PunctualIsDisciplined(Init(), timed, map[], began, limit, error);
    AtMostOnce(StepsOf(timed), 0);
  }

  // ---------------------------------------------------------------------------------------------
  // Exactness of the side condition

  /** A run in which one claim is verified twice: the second verification reads its clock before the
      purge and consumes after it. */
  function DoubleAcceptance(c: Claim): seq<Step> {
    [ReadClock(0, c, 0), ReadClock(1, c, 0), Insert(0), Commit(0), Return(0),
     PurgeLock(2, 1), PurgeDelete({c.row}), PurgeCommit, Insert(1), Commit(1), Return(1)]
  }

  lemma {:induction false} Joined(s: State, a: seq<Step>, b: seq<Step>, slack: int)
    requires Legal(s, a) && DisciplinedRun(s, a, slack)
    requires Legal(Final(s, a), b) && DisciplinedRun(Final(s, a), b, slack)
    ensures Legal(s, a + b) && DisciplinedRun(s, a + b, slack)
    ensures Final(s, a + b) == Final(Final(s, a), b)
    decreases |a|
  {
    if a == [] {
      assert a + b == b;
    } else {
      Joined(Apply(s, a[0]), a[1..], b, slack);
      assert (a + b)[1..] == a[1..] + b;
    }
  }

  lemma OneStep(s: State, step: Step, slack: int)
    requires Enabled(s, step) && Disciplined(s, step, slack)
    ensures Legal(s, [step]) && DisciplinedRun(s, [step], slack) && Final(s, [step]) == Apply(s, step)
  {
    assert [step][1..] == [];
  }

  lemma Appended(s: State, steps: seq<Step>, step: Step, slack: int)
    requires Legal(s, steps) && DisciplinedRun(s, steps, slack)
    requires Enabled(Final(s, steps), step) && Disciplined(Final(s, steps), step, slack)
    ensures Legal(s, steps + [step]) && DisciplinedRun(s, steps + [step], slack)
    ensures Final(s, steps + [step]) == Apply(Final(s, steps), step)
  {
    OneStep(Final(s, steps), step, slack);
    Joined(s, steps, [step], slack);
  }

  /** The state that run is in before its step k. */
  function DoubleAcceptanceState(c: Claim, k: nat): State {
    var first := if k < 3 then AtClock else if k == 3 then Inserted else if k == 4 then Done(Fresh) else Verified;
    var second := if k < 9 then AtClock else if k == 9 then Inserted else if k == 10 then Done(Fresh) else Verified;
    State(
      if 4 <= k < 8 || 10 <= k then map[c.row := c.expiresAt] else map[],
      if k == 0 then map[]
      else if k == 1 then map[0 := Verification(c, 0, first, true)]
      else map[0 := Verification(c, 0, first, true), 1 := Verification(c, 0, second, true)],
      if k == 6 then Some(Purge(2, 1, {})) else if k == 7 then Some(Purge(2, 1, {c.row})) else None,
      if k < 4 then {} else {c},
      if k < 6 then 0 else 2)
  }

  ghost predicate StepOfDoubleAcceptance(c: Claim, k: nat, slack: int)
    requires k < 11
  {
    var s := DoubleAcceptanceState(c, k);
    var step := DoubleAcceptance(c)[k];
    Enabled(s, step) && Disciplined(s, step, slack) && Apply(s, step) == DoubleAcceptanceState(c, k + 1)
  }

  lemma FirstAcceptance(c: Claim, k: nat, slack: int)
    requires c.expiresAt == 1 && k < 5 && 2 <= slack
    ensures StepOfDoubleAcceptance(c, k, slack)
  {
    if k < 3 {
    }
  }

  lemma PurgeThenSecondAcceptance(c: Claim, k: nat, slack: int)
    requires c.expiresAt == 1 && 5 <= k < 11 && 2 <= slack
    ensures StepOfDoubleAcceptance(c, k, slack)
  {
    if k < 7 {
    } else if k < 9 {
    }
  }

  /** With a slack of two ticks the run above is legal and disciplined. */
  lemma DoubleAcceptanceHappens(row: RowKey, slack: int)
    requires 2 <= slack
    ensures var steps := DoubleAcceptance(Claim(row, 1));
            Legal(Init(), steps) && DisciplinedRun(Init(), steps, slack) && !VerifiedAtMostOnce(Final(Init(), steps))
  {
    var c := Claim(row, 1);
    var all := DoubleAcceptance(c);
    var k := 0;
    while k < |all|
      invariant 0 <= k <= |all|
      invariant Legal(Init(), all[..k]) && DisciplinedRun(Init(), all[..k], slack)
      invariant Final(Init(), all[..k]) == DoubleAcceptanceState(c, k)
    {
      if k < 5 {
        FirstAcceptance(c, k, slack);
      } else {
        PurgeThenSecondAcceptance(c, k, slack);
      }
      Appended(Init(), all[..k], all[k], slack);
      TakeOneMore(all, k);
      k := k + 1;
    }
    assert all[..k] == all;
    var end := DoubleAcceptanceState(c, 11);
    assert HasPhase(end, 0, Verified) && HasPhase(end, 1, Verified);
  }

  // ---------------------------------------------------------------------------------------------
  // No refusal without a cause

  /** The verification has consumed its nonce first. */
  predicate Won(v: Verification) {
    v.phase == Done(Fresh) || v.phase.Verified?
  }

  /** The verification has found its nonce consumed. */
  predicate Lost(v: Verification) {
    || v.phase.Conflicted? || v.phase.Extended? || v.phase.Unextended? || v.phase.Confirmed? || v.phase.RowLost?
    || v.phase == Done(Replayed) || v.phase.Refused?
  }

  ghost predicate WonBySomeone(s: State, row: RowKey) {
    exists id :: id in s.runs && Won(s.runs[id]) && s.runs[id].claim.row == row
  }

  /** The expiry of a row is that of a settled claim. */
  ghost predicate SettledAt(s: State, row: RowKey, expiresAt: int) {
    Claim(row, expiresAt) in s.settled
  }

  ghost predicate Caused(s: State) {
    && (forall row | row in s.rows :: WonBySomeone(s, row) && SettledAt(s, row, s.rows[row]))
    && (forall id | id in s.runs && Lost(s.runs[id]) :: WonBySomeone(s, s.runs[id].claim.row))
  }

  lemma WinnersStay(s: State, step: Step, row: RowKey)
    requires Enabled(s, step) && WonBySomeone(s, row)
    ensures WonBySomeone(Apply(s, step), row)
  {
    var id :| id in s.runs && Won(s.runs[id]) && s.runs[id].claim.row == row;
    var after := Apply(s, step);
    assert id in after.runs && Won(after.runs[id]) && after.runs[id].claim.row == row;
  }

  lemma CausedKept(s: State, step: Step)
    requires Caused(s) && Enabled(s, step)
    ensures Caused(Apply(s, step))
  {
    var after := Apply(s, step);
    forall row | row in after.rows
      ensures WonBySomeone(after, row) && SettledAt(after, row, after.rows[row])
    {
      if WonBySomeone(s, row) {
        WinnersStay(s, step, row);
      } else {
        assert step.Commit? && row == s.runs[step.id].claim.row && s.runs[step.id].phase.Inserted?;
        assert Won(after.runs[step.id]) && after.runs[step.id].claim.row == row;
      }
      assert row in s.rows && after.rows[row] == s.rows[row] ==> SettledAt(s, row, s.rows[row]);
    }
    forall id | id in after.runs && Lost(after.runs[id])
      ensures WonBySomeone(after, after.runs[id].claim.row)
    {
      assert id in s.runs && s.runs[id].claim == after.runs[id].claim;
      assert Lost(s.runs[id]) || s.runs[id].claim.row in s.rows;
      WinnersStay(s, step, s.runs[id].claim.row);
    }
  }

  lemma {:induction false} CausedOverRun(s: State, steps: seq<Step>)
    requires Caused(s) && Legal(s, steps)
    ensures Caused(Final(s, steps))
    decreases |steps|
  {
    if steps != [] {
      CausedKept(s, steps[0]);
      CausedOverRun(Apply(s, steps[0]), steps[1..]);
    }
  }

  /** Over every legal run, whatever the cutoffs, a verification is refused only if another one with the same
      namespace and nonce has consumed it first. */
  lemma RefusalHasCause(steps: seq<Step>, id: nat)
    requires Legal(Init(), steps) && id in Final(Init(), steps).runs
    requires var v := Final(Init(), steps).runs[id]; v.phase == Done(Replayed) || v.phase.Refused?
    ensures var s := Final(Init(), steps);
            exists other :: other != id && other in s.runs &&
                            (s.runs[other].phase == Done(Fresh) || s.runs[other].phase.Verified?) &&
                            s.runs[other].claim.row == s.runs[id].claim.row
  {
    CausedOverRun(Init(), steps);
    var s := Final(Init(), steps);
    var other :| other in s.runs && Won(s.runs[other]) && s.runs[other].claim.row == s.runs[id].claim.row;
    assert other != id;
  }

  /** A row never outlives the claims that were settled on it. */
  lemma ExpiryIsSettled(steps: seq<Step>, row: RowKey)
    requires Legal(Init(), steps) && row in Final(Init(), steps).rows
    ensures Claim(row, Final(Init(), steps).rows[row]) in Final(Init(), steps).settled
  {
    CausedOverRun(Init(), steps);
  }

  /** The side condition is exact: at most once holds of all disciplined runs if and only if no
      cutoff is more than one tick above a clock reading still in flight. */
  lemma SideConditionExact(slack: int)
    ensures (forall steps :: Legal(Init(), steps) && DisciplinedRun(Init(), steps, slack) ==>
               VerifiedAtMostOnce(Final(Init(), steps)))
        <==> slack <= 1
  {
    if slack <= 1 {
      forall steps | Legal(Init(), steps) && DisciplinedRun(Init(), steps, slack)
        ensures VerifiedAtMostOnce(Final(Init(), steps))
      {
        AtMostOnce(steps, slack);
      }
    } else {
      DoubleAcceptanceHappens(RowKey([], ""), slack);
    }
  }
}
