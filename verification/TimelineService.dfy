/** What the timeline service holds, which is not always what it has acknowledged.

    A post is tried a few times.  The service may store an event and its answer may be lost or be an
    error; the same event is then sent again, and after the last attempt the sink takes it for refused. */
module TimelineService {
  import opened Options
  import opened TimelineChain

  const TIMELINE_MAX_ATTEMPTS: nat := 3

  /** One attempt: answered with a status, or not answered. */
  datatype Reply = Answered(status: nat, stored: bool) | Unanswered(stored: bool)

  predicate Succeeds(a: Reply) {
    a.Answered? && 200 <= a.status < 300
  }

  /** A success means that the event is stored; anything else leaves it open. */
  predicate Stores(a: Reply) {
    Succeeds(a) || a.stored
  }

  /** Server errors and lost answers are tried again. */
  predicate Retryable(a: Reply) {
    a.Unanswered? || (a.Answered? && 500 <= a.status)
  }

  /** What comes of a post: it is acknowledged, possibly after copies that were stored unknown to the sink,
      or it is taken for refused, with any number of copies stored all the same. */
  datatype Posting = Acknowledged(earlier: nat) | Unacknowledged(stored: nat)
  {
    function Copies(): nat {
      match this
      case Acknowledged(earlier) => earlier + 1
      case Unacknowledged(stored) => stored
    }

    function AfterAnother(stored: bool): Posting {
      if !stored then this
      else
        match this
        case Acknowledged(earlier) => Acknowledged(earlier + 1)
        case Unacknowledged(n) => Unacknowledged(n + 1)
    }
  }

  /** The outcome of a post if its attempts go as given. */
  function Outcome(tries: seq<Reply>): (p: Posting)
    ensures p.Copies() <= |tries|
  {
    if tries == [] then Unacknowledged(0)
    else if Succeeds(tries[0]) then Acknowledged(0)
    else if !Retryable(tries[0]) then Unacknowledged(0).AfterAnother(tries[0].stored)
    else Outcome(tries[1..]).AfterAnother(tries[0].stored)
  }

  /** The retry loop; without a management key there are no attempts at all. */
  method PostEventWithRetry(configured: bool, tries: seq<Reply>) returns (acknowledged: bool)
    requires |tries| == if configured then TIMELINE_MAX_ATTEMPTS else 0
    ensures acknowledged <==> Outcome(tries).Acknowledged?
  {
    if !configured {
      return false;
    }
    var attempt := 0;
    while attempt < TIMELINE_MAX_ATTEMPTS
      invariant 0 <= attempt <= TIMELINE_MAX_ATTEMPTS
      invariant Outcome(tries).Acknowledged? <==> Outcome(tries[attempt..]).Acknowledged?
    {
      assert tries[attempt..][1..] == tries[attempt + 1..];
      if Succeeds(tries[attempt]) {
        return true;
      }
      if !Retryable(tries[attempt]) {
        return false;
      }
      attempt := attempt + 1;
    }
    acknowledged := false;
  }

  /** The copies are the attempts that were made and stored: those up to the first that ends the loop. */
  lemma {:induction false} CopiesExact(tries: seq<Reply>, made: nat)
    requires made <= |tries| && forall i | 0 <= i < made - 1 :: Retryable(tries[i])
    requires made == |tries| || (0 < made && !Retryable(tries[made - 1]))
    ensures Outcome(tries).Copies() == StoredAmong(tries[..made])
    ensures Outcome(tries).Acknowledged? <==> 0 < made && Succeeds(tries[made - 1])
    decreases |tries|
  {
    if made > 0 {
      assert tries[..made][1..] == tries[1..][..made - 1];
      if made > 1 {
        assert Retryable(tries[0]);
        CopiesExact(tries[1..], made - 1);
      } else {
        assert tries[..1][1..] == [];
      }
    }
  }

  /** Which posts are acknowledged, told by their attempts: some attempt was answered with success, and every
      one before it with a server error or not at all. */
  lemma {:induction false} AcknowledgedExactly(tries: seq<Reply>)
    ensures Outcome(tries).Acknowledged? <==>
            exists k: nat :: k < |tries| && tries[k].Answered? && 200 <= tries[k].status < 300 &&
                             forall j | 0 <= j < k :: tries[j].Unanswered? || 500 <= tries[j].status
  {
    if tries != [] && !Succeeds(tries[0]) && Retryable(tries[0]) {
      var rest := tries[1..];
      AcknowledgedExactly(rest);
      if k: nat :| k < |rest| && rest[k].Answered? && 200 <= rest[k].status < 300 &&
                   forall j | 0 <= j < k :: rest[j].Unanswered? || 500 <= rest[j].status {
        assert tries[k + 1] == rest[k];
        assert forall j | 0 <= j < k + 1 :: j == 0 || tries[j] == rest[j - 1];
      }
      if k: nat :| k < |tries| && tries[k].Answered? && 200 <= tries[k].status < 300 &&
                   forall j | 0 <= j < k :: tries[j].Unanswered? || 500 <= tries[j].status {
        assert rest[k - 1] == tries[k];
        assert forall j | 0 <= j < k - 1 :: rest[j] == tries[j + 1];
      }
    }
  }

  function StoredAmong(tries: seq<Reply>): nat {
    if tries == [] then 0 else (if Stores(tries[0]) then 1 else 0) + StoredAmong(tries[1..])
  }

  /** A body that was linked and posted, and what came of it. */
  datatype Sent = Sent(body: EventBody, posting: Posting)

  /** What the service holds, and the tip that the sink remembers. */
  datatype Service = Service(held: seq<EventBody>, tip: Option<string>)

  const FRESH: Service := Service([], None)

  function Copies(body: EventBody, n: nat): (copies: seq<EventBody>)
    ensures |copies| == n
  {
    seq(n, _ => body)
  }

  function AfterPost(digest: BodyDigest, s: Service, sent: Sent): Service {
    var linked := sent.body.(prevEventDigest := s.tip);
    Service(s.held + Copies(linked, sent.posting.Copies()),
            if sent.posting.Acknowledged? then Some(digest(linked)) else s.tip)
  }

  function After(digest: BodyDigest, sents: seq<Sent>): Service {
    if sents == [] then FRESH
    else AfterPost(digest, After(digest, sents[..|sents| - 1]), sents[|sents| - 1])
  }

  /** The sink knows what became of the post. */
  predicate Known(sent: Sent) {
    sent.posting.Copies() == if sent.posting.Acknowledged? then 1 else 0
  }

  ghost predicate AllKnown(sents: seq<Sent>) {
    forall i | 0 <= i < |sents| :: Known(sents[i])
  }

  /** No event is stored twice, and none is stored after one that was stored unknown to the sink. */
  ghost predicate StoredInOrder(sents: seq<Sent>) {
    forall i | 0 <= i < |sents| ::
      && sents[i].posting.Copies() <= 1
      && (Known(sents[i]) || forall j | i < j < |sents| :: sents[j].posting.Copies() == 0)
  }

  /** An event does not contain its own digest. */
  ghost predicate NoSelfLink(digest: BodyDigest) {
    forall body: EventBody :: body.prevEventDigest != Some(digest(body))
  }

  /** A chain whose last event the sink does not know of: it still remembers the tip before it. */
  ghost predicate OneAhead(digest: BodyDigest, s: Service) {
    s.held != [] && Chained(digest, s.held) && s.held[|s.held| - 1].prevEventDigest == s.tip
  }

  lemma ChainedSnoc(digest: BodyDigest, events: seq<EventBody>, body: EventBody)
    ensures Chained(digest, events + [body]) <==>
            Chained(digest, events) && body.prevEventDigest == Tip(digest, events)
  {
    var longer := events + [body];
    if Chained(digest, longer) {
      assert longer[|events|].prevEventDigest == Link(digest, longer, |events|);
      forall i | 0 <= i < |events|
        ensures events[i].prevEventDigest == Link(digest, events, i)
      {
        assert longer[i].prevEventDigest == Link(digest, longer, i);
      }
    }
  }

  lemma BrokenStays(digest: BodyDigest, events: seq<EventBody>, more: seq<EventBody>)
    requires !Chained(digest, events)
    ensures !Chained(digest, events + more)
  {
    if Chained(digest, events + more) {
      forall i | 0 <= i < |events|
        ensures events[i].prevEventDigest == Link(digest, events, i)
      {
        assert (events + more)[i].prevEventDigest == Link(digest, events + more, i);
      }
    }
  }

  /** From a tip that is not that of the list, nothing can be appended to the chain. */
  lemma AppendBreaks(digest: BodyDigest, events: seq<EventBody>, body: EventBody, n: nat)
    requires body.prevEventDigest != Tip(digest, events) && 0 < n
    ensures !Chained(digest, events + Copies(body, n))
  {
    ChainedSnoc(digest, events, body);
    assert events + Copies(body, n) == events + [body] + Copies(body, n - 1);
    BrokenStays(digest, events + [body], Copies(body, n - 1));
  }

  lemma OneCopy(body: EventBody)
    ensures Copies(body, 1) == [body]
  {
  }

  /** One more post when the sink knows the tip of what is held. */
  lemma PostOnKnownTip(digest: BodyDigest, s: Service, sent: Sent)
    requires NoSelfLink(digest) && Chained(digest, s.held) && s.tip == Tip(digest, s.held)
    ensures var t := AfterPost(digest, s, sent);
            && (Known(sent) ==> Chained(digest, t.held) && t.tip == Tip(digest, t.held))
            && (!Known(sent) && sent.posting.Copies() == 1 ==> OneAhead(digest, t))
            && (1 < sent.posting.Copies() ==> !Chained(digest, t.held))
  {
    var linked := sent.body.(prevEventDigest := s.tip);
    var n := sent.posting.Copies();
    ChainedSnoc(digest, s.held, linked);
    OneCopy(linked);
    assert n == 0 ==> s.held + Copies(linked, 0) == s.held;
    if 1 < n {
      assert s.held + Copies(linked, n) == (s.held + [linked]) + Copies(linked, n - 1);
      assert linked.prevEventDigest != Some(digest(linked));
      AppendBreaks(digest, s.held + [linked], linked, n - 1);
    }
  }

  /** One more post when the service is one event ahead: the link is stale, so nothing may be stored. */
  lemma PostOnStaleTip(digest: BodyDigest, s: Service, sent: Sent)
    requires NoSelfLink(digest) && OneAhead(digest, s)
    ensures var t := AfterPost(digest, s, sent);
            if sent.posting.Copies() == 0 then t == s else !Chained(digest, t.held)
  {
    var linked := sent.body.(prevEventDigest := s.tip);
    var last := s.held[|s.held| - 1];
    if sent.posting.Copies() == 0 {
      assert s.held + Copies(linked, 0) == s.held;
    } else {
      assert last.prevEventDigest != Some(digest(last));
      AppendBreaks(digest, s.held, linked, sent.posting.Copies());
    }
  }

  lemma StoredInOrderSnoc(front: seq<Sent>, last: Sent)
    ensures StoredInOrder(front + [last]) <==>
            StoredInOrder(front) && last.posting.Copies() <= 1 && (AllKnown(front) || last.posting.Copies() == 0)
    ensures AllKnown(front + [last]) <==> AllKnown(front) && Known(last)
  {
    var sents := front + [last];
    assert sents[|front|] == last;
    assert forall i | 0 <= i < |front| :: sents[i] == front[i];
    if StoredInOrder(sents) {
      forall i | 0 <= i < |front|
        ensures front[i].posting.Copies() <= 1
        ensures Known(front[i]) || forall j | i < j < |front| :: front[j].posting.Copies() == 0
      {
        assert sents[i].posting.Copies() <= 1;
        assert Known(sents[i]) || forall j | i < j < |sents| :: sents[j].posting.Copies() == 0;
        assert forall j | i < j < |front| :: front[j] == sents[j];
      }
      if !AllKnown(front) {
        var i :| 0 <= i < |front| && !Known(front[i]);
        assert !Known(sents[i]);
        assert sents[|front|].posting.Copies() == 0;
      }
    }
  }

  lemma {:induction false} HeldStates(digest: BodyDigest, sents: seq<Sent>)
    requires NoSelfLink(digest)
    ensures var s := After(digest, sents);
            && (AllKnown(sents) ==> Chained(digest, s.held) && s.tip == Tip(digest, s.held))
            && (StoredInOrder(sents) && !AllKnown(sents) ==> OneAhead(digest, s))
            && (!StoredInOrder(sents) ==> !Chained(digest, s.held))
    decreases |sents|
  {
    if sents != [] {
      var front, last := sents[..|sents| - 1], sents[|sents| - 1];
      var s := After(digest, front);
      assert sents == front + [last];
      HeldStates(digest, front);
      StoredInOrderSnoc(front, last);
      KnownAreInOrder(front);
      if AllKnown(front) {
        PostOnKnownTip(digest, s, last);
      } else if StoredInOrder(front) {
        PostOnStaleTip(digest, s, last);
      } else {
        BrokenStays(digest, s.held, AfterPost(digest, s, last).held[|s.held|..]);
        assert AfterPost(digest, s, last).held == s.held + AfterPost(digest, s, last).held[|s.held|..];
      }
    }
  }

  lemma KnownAreInOrder(sents: seq<Sent>)
    ensures AllKnown(sents) ==> StoredInOrder(sents)
  {
    if AllKnown(sents) {
      assert forall i | 0 <= i < |sents| :: Known(sents[i]);
    }
  }

  /** Over any sequence of posts, what the service holds is a verified chain exactly if it stored no event
      twice and none after one whose storing the sink did not learn of. */
  lemma HeldChainExact(digest: BodyDigest, sents: seq<Sent>)
    requires NoSelfLink(digest)
    ensures Chained(digest, After(digest, sents).held) <==> StoredInOrder(sents)
  {
    HeldStates(digest, sents);
  }

  // ---------------------------------------------------------------------------------------------
  // What the service has acknowledged

  /** The acknowledged events, as they were sent. */
  function AcknowledgedEvents(digest: BodyDigest, sents: seq<Sent>): seq<EventBody> {
    if sents == [] then []
    else
      var front, last := sents[..|sents| - 1], sents[|sents| - 1];
      if last.posting.Acknowledged?
      then AcknowledgedEvents(digest, front) + [last.body.(prevEventDigest := After(digest, front).tip)]
      else AcknowledgedEvents(digest, front)
  }

  /** Their bodies, before they were linked. */
  function AcknowledgedBodies(sents: seq<Sent>): seq<EventBody> {
    if sents == [] then []
    else
      var front, last := sents[..|sents| - 1], sents[|sents| - 1];
      if last.posting.Acknowledged? then AcknowledgedBodies(front) + [last.body] else AcknowledgedBodies(front)
  }

  /** The acknowledged events are the acknowledged bodies linked one behind the other, they are a verified
      chain, and the sink remembers its tip. */
  lemma {:induction false} AcknowledgedIsChained(digest: BodyDigest, sents: seq<Sent>)
    ensures AcknowledgedEvents(digest, sents) == LinkAll(digest, None, AcknowledgedBodies(sents))
    ensures Chained(digest, AcknowledgedEvents(digest, sents))
    ensures Tip(digest, AcknowledgedEvents(digest, sents)) == After(digest, sents).tip
    decreases |sents|
  {
    if sents != [] {
      var front, last := sents[..|sents| - 1], sents[|sents| - 1];
      AcknowledgedIsChained(digest, front);
      if last.posting.Acknowledged? {
        var events, bodies := AcknowledgedEvents(digest, front), AcknowledgedBodies(front);
        var linked := last.body.(prevEventDigest := After(digest, front).tip);
        ChainedSnoc(digest, events, linked);
        LinkInRounds(digest, [], bodies, [last.body]);
        assert [] + LinkAll(digest, None, bodies) == events;
        assert [] + LinkAll(digest, None, bodies + [last.body]) == LinkAll(digest, None, bodies + [last.body]);
        assert LinkAll(digest, Tip(digest, events), [last.body]) == [linked];
      }
    }
  }
}
