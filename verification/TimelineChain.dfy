/** Timeline events, their content-derived identity, and the digest chain through them.

    The digests are parameters: `digest` is the SHA-256 of a serialized event body, `hash` the
    SHA-256 of an identity seed.  Lemmas that need them to be collision free say so. */
module TimelineChain {
  import opened Encoding
  import opened Options

  /** What an execution reports. */
  datatype ExecutionEvent =
    | CapabilityDenied(category: string)
    | SnapshotCreated(snapshotId: string)
    | ProofCapsuleEmitted(capsuleId: string)

  /** What is sent to the timeline service. */
  datatype EventBody = EventBody(
    sessionId: Option<string>,
    snapshotId: Option<string>,
    capsuleDigest: Option<string>,
    eventType: string,
    prevEventDigest: Option<string>)

  function FromEvent(session: Option<string>, event: ExecutionEvent): EventBody {
    match event
    case SnapshotCreated(id) => EventBody(session, Some(id), None, "snapshot_created", None)
    case CapabilityDenied(_) => EventBody(session, None, None, "capability_denied", None)
    case ProofCapsuleEmitted(id) => EventBody(session, None, Some(id), "proof_capsule_emitted", None)
  }

  /** The type of a body says which event it reports, and only an event that has a snapshot or a capsule names
      one. */
  lemma BodyTellsEvent(session: Option<string>, event: ExecutionEvent)
    ensures var body := FromEvent(session, event);
            && body.sessionId == session && body.prevEventDigest.None?
            && (event.CapabilityDenied? <==> body.eventType == "capability_denied")
            && (event.SnapshotCreated? <==> body.eventType == "snapshot_created")
            && (event.ProofCapsuleEmitted? <==> body.eventType == "proof_capsule_emitted")
            && body.snapshotId == (if event.SnapshotCreated? then Some(event.snapshotId) else None)
            && body.capsuleDigest == (if event.ProofCapsuleEmitted? then Some(event.capsuleId) else None)
  {
    KindsDiffer();
  }

  type BodyDigest = EventBody -> string

  ghost predicate Injective<T(!new)>(f: T -> string) {
    forall a, b | f(a) == f(b) :: a == b
  }

  // ---------------------------------------------------------------------------------------------
  // The digest chain

  /** The digest event i has to carry: none for the first, and the digest of its predecessor after. */
  function Link(digest: BodyDigest, events: seq<EventBody>, i: nat): Option<string>
    requires i <= |events|
  {
    if i == 0 then None else Some(digest(events[i - 1]))
  }

  function Tip(digest: BodyDigest, events: seq<EventBody>): Option<string> {
    Link(digest, events, |events|)
  }

  ghost predicate Chained(digest: BodyDigest, events: seq<EventBody>) {
    forall i {:trigger events[i].prevEventDigest} | 0 <= i < |events| ::
      events[i].prevEventDigest == Link(digest, events, i)
  }

  /** Checks a chain front to back and reports the first event that does not continue it. */
  method VerifyTimelineChain(digest: BodyDigest, events: seq<EventBody>) returns (broken: Option<nat>)
    ensures broken.None? <==> Chained(digest, events)
    ensures broken.Some? ==>
              broken.value < |events| && Chained(digest, events[..broken.value]) &&
              events[broken.value].prevEventDigest != Link(digest, events, broken.value)
  {
    var previous: Option<string> := None;
    var index := 0;
    while index < |events|
      invariant 0 <= index <= |events|
      invariant previous == Link(digest, events, index)
      invariant forall i | 0 <= i < index :: events[i].prevEventDigest == Link(digest, events, i)
    {
      if events[index].prevEventDigest != previous {
        return Some(index);
      }
      previous := Some(digest(events[index]));
      index := index + 1;
    }
    broken := None;
  }

  /** Links bodies in order behind a tip. */
  function LinkAll(digest: BodyDigest, tip: Option<string>, bodies: seq<EventBody>): (linked: seq<EventBody>)
    ensures |linked| == |bodies|
    decreases |bodies|
  {
    if bodies == [] then []
    else
      var first := bodies[0].(prevEventDigest := tip);
      [first] + LinkAll(digest, Some(digest(first)), bodies[1..])
  }

  /** Continuing a chain from its tip keeps it a chain. */
  lemma {:induction false} ChainContinues(digest: BodyDigest, done: seq<EventBody>, bodies: seq<EventBody>)
    requires Chained(digest, done)
    ensures Chained(digest, done + LinkAll(digest, Tip(digest, done), bodies))
    decreases |bodies|
  {
    if bodies == [] {
      assert done + LinkAll(digest, Tip(digest, done), bodies) == done;
    } else {
      var first := bodies[0].(prevEventDigest := Tip(digest, done));
      var longer := done + [first];
      ChainContinues(digest, longer, bodies[1..]);
      assert done + LinkAll(digest, Tip(digest, done), bodies)
          == longer + LinkAll(digest, Tip(digest, longer), bodies[1..]);
    }
  }

  /** Linking in two rounds, the second from the tip the first left, is linking in one. */
  lemma {:induction false} LinkInRounds(digest: BodyDigest, done: seq<EventBody>, a: seq<EventBody>, b: seq<EventBody>)
    ensures done + LinkAll(digest, Tip(digest, done), a + b)
         == var first := done + LinkAll(digest, Tip(digest, done), a);
            first + LinkAll(digest, Tip(digest, first), b)
    decreases |a|
  {
    if a == [] {
      assert a + b == b;
      assert done + LinkAll(digest, Tip(digest, done), a) == done;
    } else {
      var head := a[0].(prevEventDigest := Tip(digest, done));
      LinkInRounds(digest, done + [head], a[1..], b);
      assert (a + b)[1..] == a[1..] + b;
      assert done + LinkAll(digest, Tip(digest, done), a + b)
          == (done + [head]) + LinkAll(digest, Some(digest(head)), a[1..] + b);
      assert done + LinkAll(digest, Tip(digest, done), a)
          == (done + [head]) + LinkAll(digest, Some(digest(head)), a[1..]);
    }
  }

  lemma ChainedPrefix(digest: BodyDigest, a: seq<EventBody>)
    requires Chained(digest, a) && a != []
    ensures var m := |a| - 1;
            && Chained(digest, a[..m]) && a[m].prevEventDigest == Tip(digest, a[..m]) && a == a[..m] + [a[m]]
  {
  }

  /** With a collision-free digest, the last event of a verified chain determines the whole chain,
      its length included: no event before it can be changed, inserted or left out. */
  lemma {:induction false} LastEventFixesChain(digest: BodyDigest, a: seq<EventBody>, b: seq<EventBody>)
    requires Injective(digest) && Chained(digest, a) && Chained(digest, b)
    requires a != [] && b != [] && a[|a| - 1] == b[|b| - 1]
    ensures a == b
    decreases |a|
  {
    var m, n := |a| - 1, |b| - 1;
    ChainedPrefix(digest, a);
    ChainedPrefix(digest, b);
    if m > 0 {
      LastEventFixesChain(digest, a[..m], b[..n]);
    }
  }

  // ---------------------------------------------------------------------------------------------
  // Event identity

  const SEPARATOR: char := 0x1f as char

  function OrEmpty(field: Option<string>): string {
    match field
    case Some(text) => text
    case None => ""
  }

  function Seed(agent: string, body: EventBody): string {
    agent + [SEPARATOR] + (OrEmpty(body.sessionId) + [SEPARATOR] + (body.eventType + [SEPARATOR]
    + (OrEmpty(body.snapshotId) + [SEPARATOR] + OrEmpty(body.capsuleDigest))))
  }

  function EventId(hash: string -> string, agent: string, body: EventBody): string {
    hash(Seed(agent, body))
  }

  predicate SeparatorFree(field: string) {
    SEPARATOR !in field
  }

  /** On fields without the separator the identity is exactly the tuple of fields, except that an
      absent optional field and an empty one are the same. */
  lemma IdentityExact(hash: string -> string, agent: string, body: EventBody, agent': string, body': EventBody)
    requires Injective(hash)
    requires SeparatorFree(agent) && SeparatorFree(OrEmpty(body.sessionId)) && SeparatorFree(body.eventType)
    requires SeparatorFree(OrEmpty(body.snapshotId))
    requires SeparatorFree(agent') && SeparatorFree(OrEmpty(body'.sessionId)) && SeparatorFree(body'.eventType)
    requires SeparatorFree(OrEmpty(body'.snapshotId))
    ensures EventId(hash, agent, body) == EventId(hash, agent', body') <==>
            agent == agent' && OrEmpty(body.sessionId) == OrEmpty(body'.sessionId) &&
            body.eventType == body'.eventType && OrEmpty(body.snapshotId) == OrEmpty(body'.snapshotId) &&
            OrEmpty(body.capsuleDigest) == OrEmpty(body'.capsuleDigest)
  {
    if EventId(hash, agent, body) == EventId(hash, agent', body') {
      var r3 := OrEmpty(body.snapshotId) + [SEPARATOR] + OrEmpty(body.capsuleDigest);
      var r3' := OrEmpty(body'.snapshotId) + [SEPARATOR] + OrEmpty(body'.capsuleDigest);
      var r2 := body.eventType + [SEPARATOR] + r3;
      var r2' := body'.eventType + [SEPARATOR] + r3';
      SplitAtFirst(SEPARATOR, agent, OrEmpty(body.sessionId) + [SEPARATOR] + r2,
                      agent', OrEmpty(body'.sessionId) + [SEPARATOR] + r2');
      SplitAtFirst(SEPARATOR, OrEmpty(body.sessionId), r2, OrEmpty(body'.sessionId), r2');
      SplitAtFirst(SEPARATOR, body.eventType, r3, body'.eventType, r3');
      SplitAtFirst(SEPARATOR, OrEmpty(body.snapshotId), OrEmpty(body.capsuleDigest),
                      OrEmpty(body'.snapshotId), OrEmpty(body'.capsuleDigest));
    }
  }

  /** Where an event comes from, as far as its identity tells. */
  function Origin(agent: string, session: Option<string>): string {
    agent + [SEPARATOR] + OrEmpty(session)
  }

  /** The ids of snapshots and capsules are UUIDs, which the separator does not occur in. */
  predicate IdSeparatorFree(event: ExecutionEvent) {
    match event
    case SnapshotCreated(id) => SeparatorFree(id)
    case ProofCapsuleEmitted(id) => SeparatorFree(id)
    case CapabilityDenied(_) => true
  }

  lemma SeedFromTheEnd(agent: string, body: EventBody)
    ensures Seed(agent, body)
         == Origin(agent, body.sessionId) + [SEPARATOR] + body.eventType + [SEPARATOR] + OrEmpty(body.snapshotId)
            + [SEPARATOR] + OrEmpty(body.capsuleDigest)
  {
  }

  /** Whatever the agent and the session hold, what the event itself adds to an identity can be told from
      where it comes from. */
  lemma IdentityByOrigin(hash: string -> string, agent: string, body: EventBody, agent': string, body': EventBody)
    requires Injective(hash)
    requires SeparatorFree(body.eventType) && SeparatorFree(OrEmpty(body.snapshotId))
    requires SeparatorFree(OrEmpty(body.capsuleDigest))
    requires SeparatorFree(body'.eventType) && SeparatorFree(OrEmpty(body'.snapshotId))
    requires SeparatorFree(OrEmpty(body'.capsuleDigest))
    ensures EventId(hash, agent, body) == EventId(hash, agent', body') <==>
            Origin(agent, body.sessionId) == Origin(agent', body'.sessionId) &&
            body.eventType == body'.eventType && OrEmpty(body.snapshotId) == OrEmpty(body'.snapshotId) &&
            OrEmpty(body.capsuleDigest) == OrEmpty(body'.capsuleDigest)
  {
    SeedFromTheEnd(agent, body);
    SeedFromTheEnd(agent', body');
    if EventId(hash, agent, body) == EventId(hash, agent', body') {
      var r1, r1' := Origin(agent, body.sessionId), Origin(agent', body'.sessionId);
      var r2, r2' := r1 + [SEPARATOR] + body.eventType, r1' + [SEPARATOR] + body'.eventType;
      var r3, r3' := r2 + [SEPARATOR] + OrEmpty(body.snapshotId), r2' + [SEPARATOR] + OrEmpty(body'.snapshotId);
      SplitAtLast(SEPARATOR, r3, OrEmpty(body.capsuleDigest), r3', OrEmpty(body'.capsuleDigest));
      SplitAtLast(SEPARATOR, r2, OrEmpty(body.snapshotId), r2', OrEmpty(body'.snapshotId));
      SplitAtLast(SEPARATOR, r1, body.eventType, r1', body'.eventType);
    }
  }

  /** When two reported events have one identity: they have one origin, and they are the same event or
      both denials, whatever was denied. */
  lemma SameIdentityExact(hash: string -> string, agent: string, session: Option<string>, e: ExecutionEvent,
                          agent': string, session': Option<string>, e': ExecutionEvent)
    requires Injective(hash) && IdSeparatorFree(e) && IdSeparatorFree(e')
    ensures EventId(hash, agent, FromEvent(session, e)) == EventId(hash, agent', FromEvent(session', e')) <==>
            Origin(agent, session) == Origin(agent', session') &&
            (e == e' || (e.CapabilityDenied? && e'.CapabilityDenied?))
  {
    KindsDiffer();
    IdentityByOrigin(hash, agent, FromEvent(session, e), agent', FromEvent(session', e'));
  }

  /** The first agent goes on where the second ends, with a separator and the beginning of its session. */
  predicate Shifted(agent: string, session: Option<string>, agent': string, session': Option<string>) {
    && agent' + [SEPARATOR] <= agent
    && OrEmpty(session') == agent[|agent'| + 1..] + [SEPARATOR] + OrEmpty(session)
  }

  lemma ShiftedHaveOneOrigin(agent: string, session: Option<string>, agent': string, session': Option<string>)
    requires Shifted(agent, session, agent', session')
    ensures Origin(agent, session) == Origin(agent', session') && agent != agent' && !SeparatorFree(agent)
  {
    var front, middle := agent' + [SEPARATOR], agent[|agent'| + 1..];
    assert agent[|agent'|] == front[|agent'|] == SEPARATOR && |agent'| < |agent|;
    assert agent == front + middle;
    assert front + middle + [SEPARATOR] + OrEmpty(session) == front + (middle + [SEPARATOR] + OrEmpty(session));
  }

  /** Two origins are mixed up exactly if they are the same, or one agent holds a separator at which the other
      agent ends and its session begins. */
  lemma OriginsExact(agent: string, session: Option<string>, agent': string, session': Option<string>)
    ensures Origin(agent, session) == Origin(agent', session') <==>
            || (agent == agent' && OrEmpty(session) == OrEmpty(session'))
            || Shifted(agent, session, agent', session') || Shifted(agent', session', agent, session)
  {
    if Shifted(agent, session, agent', session') {
      ShiftedHaveOneOrigin(agent, session, agent', session');
    }
    if Shifted(agent', session', agent, session) {
      ShiftedHaveOneOrigin(agent', session', agent, session);
    }
    if Origin(agent, session) == Origin(agent', session') {
      if |agent'| < |agent| {
        SplitTwice(SEPARATOR, agent, OrEmpty(session), agent', OrEmpty(session'));
      } else if |agent| < |agent'| {
        SplitTwice(SEPARATOR, agent', OrEmpty(session'), agent, OrEmpty(session));
      } else {
        assert Origin(agent, session)[..|agent|] == agent && Origin(agent', session')[..|agent|] == agent';
        CommonPrefix(agent + [SEPARATOR], OrEmpty(session), OrEmpty(session'));
      }
    }
  }

  /** Events of different sessions or agents share an identity only if an agent id holds the separator: for
      one agent, or agents without it, no two sessions are ever mixed up, whatever the sessions hold. */
  lemma SessionsStayApart(hash: string -> string, agent: string, session: Option<string>, e: ExecutionEvent,
                          agent': string, session': Option<string>, e': ExecutionEvent)
    requires Injective(hash) && IdSeparatorFree(e) && IdSeparatorFree(e')
    requires agent == agent' || (SeparatorFree(agent) && SeparatorFree(agent'))
    ensures EventId(hash, agent, FromEvent(session, e)) == EventId(hash, agent', FromEvent(session', e')) <==>
            agent == agent' && OrEmpty(session) == OrEmpty(session') &&
            (e == e' || (e.CapabilityDenied? && e'.CapabilityDenied?))
  {
    SameIdentityExact(hash, agent, session, e, agent', session', e');
    OriginsExact(agent, session, agent', session');
    if Shifted(agent, session, agent', session') {
      ShiftedHaveOneOrigin(agent, session, agent', session');
    }
    if Shifted(agent', session', agent, session) {
      ShiftedHaveOneOrigin(agent', session', agent, session);
    }
  }

  /** An agent id with the separator is mixed up with the part of it before the separator, for every event. */
  lemma SeparatorCollision(hash: string -> string, x: string, y: string, z: string, e: ExecutionEvent)
    ensures EventId(hash, x + [SEPARATOR] + y, FromEvent(Some(z), e))
         == EventId(hash, x, FromEvent(Some(y + [SEPARATOR] + z), e))
  {
    var agent, session := x + [SEPARATOR] + y, y + [SEPARATOR] + z;
    assert agent[|x| + 1..] == y && agent[..|x| + 1] == x + [SEPARATOR];
    ShiftedHaveOneOrigin(agent, Some(z), x, Some(session));
    SeedFromTheEnd(agent, FromEvent(Some(z), e));
    SeedFromTheEnd(x, FromEvent(Some(session), e));
  }

  lemma KindsDiffer()
    ensures SeparatorFree("snapshot_created") && SeparatorFree("capability_denied")
    ensures SeparatorFree("proof_capsule_emitted")
    ensures "snapshot_created" != "capability_denied" && "snapshot_created" != "proof_capsule_emitted"
    ensures "capability_denied" != "proof_capsule_emitted"
  {
    assert "snapshot_created"[0] == 's' && "capability_denied"[0] == 'c' && "proof_capsule_emitted"[0] == 'p';
  }
}
