/** The timeline sink: online delivery, offline spooling and replay, used by one task at a time.

    The answers of the timeline service, the clock and the fate of each disk operation are inputs. */
module TimelineSink {
  import opened Lists
  import opened Options
  import opened TimelineChain
  import opened TimelineReplay
  import opened TimelineService
  import opened TimelineSpool

  datatype Mode = Advisory | Attested | Offline

  datatype Status = FireAndForget | AllDelivered | FailedOpen | RequiredButFailed

  /** How the spool file behaves during one append: whether it can be read, and how writing goes. */
  datatype Disk = Disk(readable: bool, writing: Writing)

  datatype Writing = OpenFails | WriteFailsAt(index: nat) | Works

  function BodiesOf(session: Option<string>, events: seq<ExecutionEvent>): (bodies: seq<EventBody>)
    ensures |bodies| == |events| && forall i | 0 <= i < |events| :: bodies[i] == FromEvent(session, events[i])
  {
    seq(|events|, i requires 0 <= i < |events| => FromEvent(session, events[i]))
  }

  /** The posts of an online delivery. */
  function SentAll(bodies: seq<EventBody>, tries: Tries): (sents: seq<Sent>)
    requires |tries| == |bodies|
    ensures |sents| == |bodies| && forall i | 0 <= i < |bodies| :: sents[i] == Sent(bodies[i], Outcome(tries[i]))
  {
    seq(|bodies|, i requires 0 <= i < |bodies| => Sent(bodies[i], Outcome(tries[i])))
  }

  function RecordFor(hash: string -> string, agent: string, body: EventBody, stamp: int): SpoolRecord {
    SpoolRecord(stamp, agent, Some(EventId(hash, agent, body)), body)
  }

  function RecordsFor(hash: string -> string, agent: string, bodies: seq<EventBody>, stamps: seq<int>)
    : (records: seq<SpoolRecord>)
    requires |stamps| == |bodies|
    ensures |records| == |bodies| && AllIdentified(records)
    ensures forall i | 0 <= i < |bodies| ::
              records[i] == SpoolRecord(stamps[i], agent, Some(EventId(hash, agent, bodies[i])), bodies[i])
  {
    seq(|bodies|, i requires 0 <= i < |bodies| => RecordFor(hash, agent, bodies[i], stamps[i]))
  }

  /** The ids an append knows once it is through the records: those it read and those it wrote. */
  function KnownIds(lines: seq<Line>, records: seq<SpoolRecord>, readable: bool): seq<string> {
    Ids(AppendAbsent(if readable then lines else [], records))
  }

  /** An append that went through the first k records: all of them, or up to the first record that
      had to be written once writing failed. */
  ghost predicate StoppedAt(lines: seq<Line>, after: seq<Line>, records: seq<SpoolRecord>, readable: bool, at: nat,
                            ok: bool, k: nat)
    requires AllIdentified(records)
  {
    && k <= |records| && after == Appended(lines, records[..k], readable)
    && (ok <==> k == |records|)
    && (k < |records| ==> at <= k && records[k].eventId.value !in KnownIds(lines, records[..k], readable))
  }

  ghost predicate WrittenUpTo(lines: seq<Line>, after: seq<Line>, records: seq<SpoolRecord>, disk: Disk, ok: bool)
    requires AllIdentified(records)
  {
    match disk.writing
    case OpenFails => !ok && after == lines
    case Works => ok && after == Appended(lines, records, disk.readable)
    case WriteFailsAt(at) => exists k :: StoppedAt(lines, after, records, disk.readable, at, ok, k)
  }

  /** What an append has come to before record i. */
  ghost predicate Underway(lines: seq<Line>, spool: seq<Line>, seen: set<string>, records: seq<SpoolRecord>,
                           readable: bool, i: nat)
  {
    && i <= |records| && spool == Appended(lines, records[..i], readable)
    && seen == set id | id in KnownIds(lines, records[..i], readable)
  }

  lemma NotUnderway(lines: seq<Line>, seen: set<string>, records: seq<SpoolRecord>, readable: bool)
    requires if readable then seen == set id | id in Ids(lines) else seen == {}
    ensures Underway(lines, lines, seen, records, readable, 0)
  {
    assert records[..0] == [] && lines + [] == lines;
  }

  lemma AppendedSnoc(lines: seq<Line>, records: seq<SpoolRecord>, readable: bool, i: nat)
    requires i < |records| && records[i].eventId.Some?
    ensures var known, id := KnownIds(lines, records[..i], readable), records[i].eventId.value;
            && Appended(lines, records[..i + 1], readable)
               == Appended(lines, records[..i], readable) + (if id in known then [] else [Stored(records[i])])
            && KnownIds(lines, records[..i + 1], readable) == known + if id in known then [] else [id]
  {
    var base := if readable then lines else [];
    var before := AppendAbsent(base, records[..i]);
    assert records[..i + 1][..i] == records[..i];
    assert AppendAbsent(base, records[..i + 1]) == PutIfAbsent(before, records[i]);
    IdsSnoc(before, Stored(records[i]));
    if !readable {
      Associative(lines, before, [Stored(records[i])]);
    }
  }

  lemma OneMoreRecord(lines: seq<Line>, spool: seq<Line>, seen: set<string>, records: seq<SpoolRecord>,
                      readable: bool, i: nat)
    requires Underway(lines, spool, seen, records, readable, i) && AllIdentified(records) && i < |records|
    ensures var id := records[i].eventId.value;
            && (id in seen <==> id in KnownIds(lines, records[..i], readable))
            && if id in seen then Underway(lines, spool, seen, records, readable, i + 1)
               else Underway(lines, spool + [Stored(records[i])], seen + {id}, records, readable, i + 1)
  {
    var id, known := records[i].eventId.value, KnownIds(lines, records[..i], readable);
    AppendedSnoc(lines, records, readable, i);
    if id in known {
      assert known + [] == known && spool + [] == spool;
    } else {
      assert forall x :: x in known + [id] <==> x in known || x == id;
    }
  }

  /** The ids in the file; none if the file cannot be read. */
  method ReadSpooledEventIds(lines: seq<Line>, readable: bool) returns (ids: set<string>)
    ensures readable ==> ids == set id | id in Ids(lines)
    ensures !readable ==> ids == {}
  {
    ids := {};
    if !readable {
      return;
    }
    var index := 0;
    while index < |lines|
      invariant 0 <= index <= |lines|
      invariant ids == set id | id in Ids(lines[..index])
    {
      var line := lines[index];
      if line.Stored? && line.record.eventId.Some? {
        ids := ids + {line.record.eventId.value};
      }
      IdsSnoc(lines[..index], line);
      assert lines[..index] + [line] == lines[..index + 1];
      index := index + 1;
    }
    assert lines[..index] == lines;
  }

  class Sink {
    const digest: BodyDigest
    const hash: string -> string
    const mode: Mode
    /** A management key is set; without one nothing is posted. */
    const configured: bool
    var lastEventDigest: Option<string>
    var spool: seq<Line>
    /** Every post of this sink, in order, and what came of it. */
    ghost var sents: seq<Sent>

    /** The sink remembers the tip that its posts lead to. */
    ghost predicate Valid()
      reads this
    {
      lastEventDigest == After(digest, sents).tip
    }

    constructor (digest: BodyDigest, hash: string -> string, mode: Mode, configured: bool, spool: seq<Line>)
      ensures Valid() && sents == [] && this.spool == spool
      ensures this.digest == digest && this.hash == hash && this.mode == mode && this.configured == configured
    {
      this.digest := digest;
      this.hash := hash;
      this.mode := mode;
      this.configured := configured;
      this.spool := spool;
      lastEventDigest := None;
      sents := [];
    }

    /** As many attempts as a post makes at most. */
    predicate Fits(tries: seq<Reply>) {
      |tries| == if configured then TIMELINE_MAX_ATTEMPTS else 0
    }

    predicate FitsAll(tries: Tries) {
      forall i | 0 <= i < |tries| :: Fits(tries[i])
    }

    /** Link behind the remembered tip, post, and remember the new tip if the post was acknowledged. */
    method PostLinked(body: EventBody, tries: seq<Reply>) returns (acknowledged: bool)
      requires Valid() && Fits(tries)
      modifies this`sents, this`lastEventDigest
      ensures Valid()
      ensures acknowledged == Outcome(tries).Acknowledged?
      ensures sents == old(sents) + [Sent(body, Outcome(tries))]
    {
      var linked := body.(prevEventDigest := lastEventDigest);
      acknowledged := PostEventWithRetry(configured, tries);
      ghost var sent := Sent(body, Outcome(tries));
      assert (sents + [sent])[..|sents|] == sents;
      sents := sents + [sent];
      if acknowledged {
        lastEventDigest := Some(digest(linked));
      }
    }

    /** The loop of an online delivery. */
    method PostAll(session: Option<string>, events: seq<ExecutionEvent>, tries: Tries) returns (deliveredAll: bool)
      requires Valid() && |tries| == |events| && FitsAll(tries)
      modifies this`sents, this`lastEventDigest
      ensures Valid()
      ensures deliveredAll <==> AllAcknowledged(tries)
      ensures sents == old(sents) + SentAll(BodiesOf(session, events), tries)
    {
      deliveredAll := true;
      ghost var bodies := BodiesOf(session, events);
      var index := 0;
      while index < |events|
        invariant 0 <= index <= |events|
        invariant Valid()
        invariant deliveredAll <==> AllAcknowledged(tries[..index])
        invariant sents == old(sents) + SentAll(bodies[..index], tries[..index])
      {
        var acknowledged := PostLinked(FromEvent(session, events[index]), tries[index]);
        SentAllSnoc(bodies, tries, index);
        deliveredAll := deliveredAll && acknowledged;
        index := index + 1;
      }
      assert bodies[..index] == bodies && tries[..index] == tries;
    }

    method Deliver(agent: string, session: Option<string>, events: seq<ExecutionEvent>,
                   tries: Tries, stamps: seq<int>, disk: Disk) returns (status: Status)
      requires Valid() && |tries| == |stamps| == |events| && FitsAll(tries)
      modifies this`sents, this`lastEventDigest, this`spool
      ensures Valid()
      ensures events == [] ==> status == AllDelivered && spool == old(spool) && sents == old(sents)
      ensures events != [] && mode.Offline? ==>
                && sents == old(sents)
                && (status == FireAndForget || status == FailedOpen)
                && WrittenUpTo(old(spool), spool, RecordsFor(hash, agent, BodiesOf(session, events), stamps),
                               disk, status == FireAndForget)
      ensures events != [] && !mode.Offline? ==>
                && spool == old(spool)
                && sents == old(sents) + SentAll(BodiesOf(session, events), tries)
                && status == (if forall i | 0 <= i < |tries| :: Outcome(tries[i]).Acknowledged? then AllDelivered
                              else if mode.Attested? then RequiredButFailed
                              else FailedOpen)
    {
      if events == [] {
        return AllDelivered;
      }
      if mode.Offline? {
        var ok := SpoolEvents(agent, session, events, stamps, disk);
        return if ok then FireAndForget else FailedOpen;
      }
      var deliveredAll := PostAll(session, events, tries);
      AllAcknowledgedExact(tries);
      status := if deliveredAll then AllDelivered
                else if mode.Attested? then RequiredButFailed
                else FailedOpen;
    }

    /** The loop of an append, up to the first write that fails; it stopped before record k. */
    method AppendLoop(agent: string, session: Option<string>, events: seq<ExecutionEvent>, stamps: seq<int>,
                      disk: Disk, known: set<string>)
      returns (ok: bool, ghost k: nat)
      requires |stamps| == |events| && !disk.writing.OpenFails?
      requires if disk.readable then known == set id | id in Ids(spool) else known == {}
      modifies this`spool
      ensures var records := RecordsFor(hash, agent, BodiesOf(session, events), stamps);
              && k <= |records| && spool == Appended(old(spool), records[..k], disk.readable)
              && (ok <==> k == |records|)
              && (!ok ==> disk.writing.WriteFailsAt? && disk.writing.index <= k &&
                          records[k].eventId.value !in KnownIds(old(spool), records[..k], disk.readable))
    {
      ghost var records := RecordsFor(hash, agent, BodiesOf(session, events), stamps);
      var seen := known;
      var index := 0;
      NotUnderway(spool, seen, records, disk.readable);
      while index < |events|
        invariant 0 <= index <= |events|
        invariant Underway(old(spool), spool, seen, records, disk.readable, index)
      {
        var record := RecordFor(hash, agent, FromEvent(session, events[index]), stamps[index]);
        assert record == records[index];
        OneMoreRecord(old(spool), spool, seen, records, disk.readable, index);
        if record.eventId.value !in seen {
          if disk.writing.WriteFailsAt? && disk.writing.index <= index {
            return false, index;
          }
          seen := seen + {record.eventId.value};
          spool := spool + [Stored(record)];
        }
        index := index + 1;
      }
      ok, k := true, index;
    }

    method SpoolEvents(agent: string, session: Option<string>, events: seq<ExecutionEvent>,
                       stamps: seq<int>, disk: Disk) returns (ok: bool)
      requires |stamps| == |events|
      modifies this`spool
      ensures WrittenUpTo(old(spool), spool, RecordsFor(hash, agent, BodiesOf(session, events), stamps), disk, ok)
    {
      var seen := ReadSpooledEventIds(spool, disk.readable);
      if disk.writing.OpenFails? {
        return false;
      }
      ghost var k;
      ok, k := AppendLoop(agent, session, events, stamps, disk, seen);
      ghost var records := RecordsFor(hash, agent, BodiesOf(session, events), stamps);
      assert records[..|records|] == records;
      if disk.writing.WriteFailsAt? {
        assert StoppedAt(old(spool), spool, records, disk.readable, disk.writing.index, ok, k);
      }
    }

    /** Replay's handling of one line, given the ids met before it. */
    method ReplayLine(line: Line, agent: string, since: Option<int>, seen: set<string>, tries: seq<Reply>)
      returns (fate: Fate, met: set<string>)
      requires Valid() && Fits(tries)
      modifies this`sents, this`lastEventDigest
      ensures Valid()
      ensures fate == FateOf(line, agent, since, seen, Outcome(tries).Acknowledged?)
      ensures met == seen + IdMet(line, agent, since)
      ensures Posted(fate) ==> line.Stored? && sents == old(sents) + [Sent(line.record.event, Outcome(tries))]
      ensures !Posted(fate) ==> sents == old(sents)
    {
      met := seen;
      match line {
        case Blank(_) => fate := Ignored;
        case Unparsable(_) => fate := Malformed;
        case Stored(record) =>
          if !InScope(record, agent, since) {
            return OutOfScope, met;
          }
          if record.eventId.Some? {
            if record.eventId.value in seen {
              return Duplicate, met;
            }
            met := met + {record.eventId.value};
          }
          var acknowledged := PostLinked(record.event, tries);
          fate := if acknowledged then Delivered else Failed;
      }
    }

    /** One more line of a pass. */
    method PassLine(lines: seq<Line>, agent: string, since: Option<int>, tries: Tries, index: nat, pass: Pass,
                    ghost sent: seq<Sent>)
      returns (longer: Pass, ghost more: seq<Sent>)
      requires Valid() && |tries| == |lines| && FitsAll(tries) && index < |lines|
      requires Passed(lines, agent, since, tries, index, pass, sent)
      modifies this`sents, this`lastEventDigest
      ensures Valid() && sents == old(sents) + more
      ensures Passed(lines, agent, since, tries, index + 1, longer, sent + more)
    {
      ghost var fates := Fates(lines, agent, since, Answers(tries));
      PostedAreStored(lines, agent, since, Answers(tries));
      SeenSnoc(lines, agent, since, index);
      PassSnoc(lines, fates, tries, index);
      var fate, seen := ReplayLine(lines[index], agent, since, pass.seen, tries[index]);
      assert fate == fates[index];
      more := if Posted(fate) then [Sent(lines[index].record.event, Outcome(tries[index]))] else [];
      assert sent + [] == sent && old(sents) + [] == old(sents);
      longer := Pass(Counted(pass.report, fate), Kept(pass.retained, lines[index], fate), seen);
    }

    /** The loop of a replay pass: posts, counts, and collects the lines to keep. */
    method PassOver(lines: seq<Line>, agent: string, since: Option<int>, tries: Tries)
      returns (report: Report, retained: seq<Line>)
      requires Valid() && |tries| == |lines| && FitsAll(tries)
      modifies this`sents, this`lastEventDigest
      ensures Valid()
      ensures var fates := Fates(lines, agent, since, Answers(tries));
              && report == ReportOf(fates) && retained == Retained(lines, fates)
              && (forall i | 0 <= i < |lines| && Posted(fates[i]) :: lines[i].Stored?)
              && sents == old(sents) + SentIn(lines, fates, tries)
      // From the lines and the attempts alone.
      ensures retained == Selected(lines, StayFlags(lines, agent, since, tries))
      ensures Reports(lines, agent, since, tries, report)
      ensures |old(sents)| <= |sents| && PostsOf(lines, agent, since, tries, sents[|old(sents)|..])
    {
      var pass := Pass(Report(0, 0, 0), [], {});
      ghost var sent: seq<Sent> := [];
      var index := 0;
      PostedAreStored(lines, agent, since, Answers(tries));
      while index < |lines|
        invariant 0 <= index <= |lines|
        invariant Valid() && sents == old(sents) + sent
        invariant Passed(lines, agent, since, tries, index, pass, sent)
      {
        ghost var more;
        pass, more := PassLine(lines, agent, since, tries, index, pass, sent);
        Associative(old(sents), sent, more);
        sent := sent + more;
        index := index + 1;
      }
      WholePass(lines, agent, since, tries, pass, sent);
      PassExact(lines, agent, since, tries);
      assert sents[|old(sents)|..] == sent;
      report, retained := pass.report, pass.retained;
    }

    /** One replay pass.  `tries[i]` is how a post of line i would go, should it be posted. */
    method ReplaySpooledEvents(agent: string, since: Option<int>, tries: Tries, readable: bool, rewrite: Rewrite)
      returns (report: Report)
      requires Valid() && |tries| == |spool| && FitsAll(tries)
      modifies this`sents, this`lastEventDigest, this`spool
      ensures Valid()
      ensures !readable ==> report == Report(0, 1, 0) && spool == old(spool) && sents == old(sents)
      ensures readable ==>
                var fates := Fates(old(spool), agent, since, Answers(tries));
                && report == ReportOf(fates)
                && spool == AfterRewrite(old(spool), Retained(old(spool), fates), rewrite)
                && (forall i | 0 <= i < |fates| && Posted(fates[i]) :: old(spool)[i].Stored?)
                && sents == old(sents) + SentIn(old(spool), fates, tries)
      // From the lines and the attempts alone.
      ensures readable ==>
                && Reports(old(spool), agent, since, tries, report)
                && |old(sents)| <= |sents| && PostsOf(old(spool), agent, since, tries, sents[|old(sents)|..])
      ensures readable && rewrite.Rewritten? ==>
                spool == Selected(old(spool), StayFlags(old(spool), agent, since, tries))
      ensures readable && rewrite.NotOpened? ==> spool == old(spool)
      ensures readable && rewrite.CutShort? ==>
                var kept := Selected(old(spool), StayFlags(old(spool), agent, since, tries));
                spool <= kept && |spool| == if rewrite.lines < |kept| then rewrite.lines else |kept|
    {
      if !readable {
        return Report(0, 1, 0);
      }
      var retained;
      report, retained := PassOver(spool, agent, since, tries);
      spool := AfterRewrite(spool, retained, rewrite);
    }

    /** What this sink's service has acknowledged is a verified chain, and all that it holds is one exactly
        if it stored no event twice and none after one whose storing the sink did not learn of. */
    lemma ServiceChain()
      requires Valid() && NoSelfLink(digest)
      ensures Chained(digest, AcknowledgedEvents(digest, sents))
      ensures Chained(digest, After(digest, sents).held) <==> StoredInOrder(sents)
    {
      AcknowledgedIsChained(digest, sents);
      HeldChainExact(digest, sents);
    }
  }

  /** The variables of a replay pass. */
  datatype Pass = Pass(report: Report, retained: seq<Line>, seen: set<string>)

  /** What a pass has come to before line `index`. */
  ghost predicate Passed(lines: seq<Line>, agent: string, since: Option<int>, tries: Tries, index: nat, pass: Pass,
                         sent: seq<Sent>)
    requires |tries| == |lines|
  {
    var fates := Fates(lines, agent, since, Answers(tries));
    && index <= |lines|
    && (forall i | 0 <= i < |lines| && Posted(fates[i]) :: lines[i].Stored?)
    && pass == Pass(ReportOf(fates[..index]), Retained(lines[..index], fates[..index]),
                    SeenIn(lines[..index], agent, since))
    && sent == SentIn(lines[..index], fates[..index], tries[..index])
  }

  lemma WholePass(lines: seq<Line>, agent: string, since: Option<int>, tries: Tries, pass: Pass, sent: seq<Sent>)
    requires |tries| == |lines| && Passed(lines, agent, since, tries, |lines|, pass, sent)
    ensures var fates := Fates(lines, agent, since, Answers(tries));
            && pass.report == ReportOf(fates) && pass.retained == Retained(lines, fates)
            && sent == SentIn(lines, fates, tries)
  {
    var fates := Fates(lines, agent, since, Answers(tries));
    assert lines[..|lines|] == lines && fates[..|lines|] == fates && tries[..|lines|] == tries;
  }

  /** The id a line adds to those met in a pass. */
  function IdMet(line: Line, agent: string, since: Option<int>): set<string> {
    if line.Stored? && InScope(line.record, agent, since) && line.record.eventId.Some?
    then {line.record.eventId.value} else {}
  }

  predicate AllAcknowledged(tries: Tries) {
    tries == [] || (AllAcknowledged(tries[..|tries| - 1]) && Outcome(tries[|tries| - 1]).Acknowledged?)
  }

  lemma {:induction false} AllAcknowledgedExact(tries: Tries)
    ensures AllAcknowledged(tries) <==> forall i | 0 <= i < |tries| :: Outcome(tries[i]).Acknowledged?
  {
    if tries != [] {
      var front := tries[..|tries| - 1];
      AllAcknowledgedExact(front);
      assert forall i | 0 <= i < |front| :: front[i] == tries[i];
    }
  }

  lemma SentAllSnoc(bodies: seq<EventBody>, tries: Tries, i: nat)
    requires |tries| == |bodies| && i < |bodies|
    ensures AllAcknowledged(tries[..i + 1]) <==> AllAcknowledged(tries[..i]) && Outcome(tries[i]).Acknowledged?
    ensures SentAll(bodies[..i + 1], tries[..i + 1])
         == SentAll(bodies[..i], tries[..i]) + [Sent(bodies[i], Outcome(tries[i]))]
  {
    assert tries[..i + 1][..i] == tries[..i];
  }

  function Counted(report: Report, fate: Fate): Report {
    match fate
    case Ignored => report
    case Delivered => report.(delivered := report.delivered + 1)
    case Failed => report.(failed := report.failed + 1)
    case Malformed => report.(failed := report.failed + 1)
    case OutOfScope => report.(skipped := report.skipped + 1)
    case Duplicate => report.(skipped := report.skipped + 1)
  }

  function Kept(retained: seq<Line>, line: Line, fate: Fate): seq<Line> {
    if Retains(fate) then retained + [line] else retained
  }

  /** One more line of a pass. */
  lemma PassSnoc(lines: seq<Line>, fates: seq<Fate>, tries: Tries, i: nat)
    requires |fates| == |tries| == |lines| && i < |lines|
    requires forall k | 0 <= k < |lines| && Posted(fates[k]) :: lines[k].Stored?
    ensures ReportOf(fates[..i + 1]) == Counted(ReportOf(fates[..i]), fates[i])
    ensures Retained(lines[..i + 1], fates[..i + 1]) == Kept(Retained(lines[..i], fates[..i]), lines[i], fates[i])
    ensures SentIn(lines[..i + 1], fates[..i + 1], tries[..i + 1])
         == if Posted(fates[i])
            then SentIn(lines[..i], fates[..i], tries[..i]) + [Sent(lines[i].record.event, Outcome(tries[i]))]
            else SentIn(lines[..i], fates[..i], tries[..i])
  {
    assert lines[..i + 1][..i] == lines[..i] && fates[..i + 1][..i] == fates[..i] && tries[..i + 1][..i] == tries[..i];
  }

  lemma SeenSnoc(lines: seq<Line>, agent: string, since: Option<int>, i: nat)
    requires i < |lines|
    ensures SeenIn(lines[..i + 1], agent, since) == SeenIn(lines[..i], agent, since) + IdMet(lines[i], agent, since)
  {
    var shorter, longer := lines[..i], lines[..i + 1];
    assert forall k | 0 <= k < i :: shorter[k] == longer[k];
    forall id | id in SeenIn(shorter, agent, since)
      ensures id in SeenIn(longer, agent, since)
    {
      var k :| 0 <= k < i && shorter[k].Stored? && InScope(shorter[k].record, agent, since) &&
               shorter[k].record.eventId == Some(id);
      assert longer[k].Stored?;
    }
  }

  // ---------------------------------------------------------------------------------------------
  // What offline delivery loses

  /** An append writes every record exactly if their ids are all different and none is in the file yet. */
  lemma {:induction false} AllWritten(lines: seq<Line>, records: seq<SpoolRecord>)
    requires AllIdentified(records)
    ensures |lines| <= |AppendAbsent(lines, records)| <= |lines| + |records|
    ensures |AppendAbsent(lines, records)| == |lines| + |records| <==>
            Distinct(RecordIds(records)) && NoneIn(RecordIds(records), Ids(lines))
    decreases |records|
  {
    if records != [] {
      var n := |records| - 1;
      var front := records[..n];
      AllWritten(lines, front);
      RecordIdsSnoc(records);
      LastIsNew(lines, records);
      DistinctSnoc(RecordIds(front), RecordIds(records)[n]);
      NoneInSnoc(RecordIds(front), RecordIds(records)[n], Ids(lines));
    }
  }

  /** The last record of a batch is written unless its id is in the file or in the batch before it. */
  lemma LastIsNew(lines: seq<Line>, records: seq<SpoolRecord>)
    requires AllIdentified(records) && records != []
    ensures var n := |records| - 1;
            var before, id := AppendAbsent(lines, records[..n]), RecordIds(records)[n];
            && |AppendAbsent(lines, records)| == |before| + (if id in Ids(before) then 0 else 1)
            && (id in Ids(before) <==> id in Ids(lines) || id in RecordIds(records[..n]))
  {
    var n := |records| - 1;
    IdsAfterAppend(lines, records[..n], RecordIds(records)[n]);
  }

  /** A report that was made to a sink with the given hash. */
  datatype Reported = Reported(agent: string, session: Option<string>, event: ExecutionEvent)

  function ReportId(hash: string -> string, r: Reported): string {
    EventId(hash, r.agent, FromEvent(r.session, r.event))
  }

  /** The ids in the file are those of the reports. */
  ghost predicate SpoolHolds(hash: string -> string, lines: seq<Line>, held: seq<Reported>) {
    forall id :: id in Ids(lines) <==> exists h :: h in held && ReportId(hash, h) == id
  }

  /** Two reports that the spool cannot tell apart: of one origin, and equal or both denials. */
  predicate Clash(a: Reported, b: Reported) {
    && Origin(a.agent, a.session) == Origin(b.agent, b.session)
    && (a.event == b.event || (a.event.CapabilityDenied? && b.event.CapabilityDenied?))
  }

  function BatchOf(agent: string, session: Option<string>, events: seq<ExecutionEvent>): (batch: seq<Reported>)
    ensures |batch| == |events|
  {
    seq(|events|, i requires 0 <= i < |events| => Reported(agent, session, events[i]))
  }

  lemma ClashExact(hash: string -> string, a: Reported, b: Reported)
    requires Injective(hash) && IdSeparatorFree(a.event) && IdSeparatorFree(b.event)
    ensures ReportId(hash, a) == ReportId(hash, b) <==> Clash(a, b)
  {
    SameIdentityExact(hash, a.agent, a.session, a.event, b.agent, b.session, b.event);
  }

  lemma BatchIds(hash: string -> string, agent: string, session: Option<string>, events: seq<ExecutionEvent>,
                 stamps: seq<int>)
    requires |stamps| == |events|
    ensures var ids := RecordIds(RecordsFor(hash, agent, BodiesOf(session, events), stamps));
            && |ids| == |events|
            && forall i | 0 <= i < |events| :: ids[i] == ReportId(hash, BatchOf(agent, session, events)[i])
  {
  }

  /** A batch is spooled without loss exactly if no report in it clashes with another in it or, where the file
      can be read, with one that it holds from an earlier delivery: a second denial of a session is dropped
      while the first is in the file. */
  lemma BatchKeptWhole(hash: string -> string, lines: seq<Line>, held: seq<Reported>, agent: string,
                       session: Option<string>, events: seq<ExecutionEvent>, stamps: seq<int>, readable: bool)
    requires Injective(hash) && |stamps| == |events| && SpoolHolds(hash, lines, held)
    requires forall r | r in held || r in BatchOf(agent, session, events) :: IdSeparatorFree(r.event)
    ensures var batch := BatchOf(agent, session, events);
            var records := RecordsFor(hash, agent, BodiesOf(session, events), stamps);
            |Appended(lines, records, readable)| == |lines| + |events| <==>
              && (forall i, j | 0 <= i < j < |batch| :: !Clash(batch[i], batch[j]))
              && (readable ==> forall h, r | h in held && r in batch :: !Clash(h, r))
  {
    var batch := BatchOf(agent, session, events);
    var records := RecordsFor(hash, agent, BodiesOf(session, events), stamps);
    var ids := RecordIds(records);
    AllWritten(lines, records);
    AllWritten([], records);
    BatchIds(hash, agent, session, events, stamps);
    DistinctExact(hash, batch, ids);
    FreshExact(hash, lines, held, batch, ids);
  }

  lemma DistinctExact(hash: string -> string, batch: seq<Reported>, ids: seq<string>)
    requires Injective(hash) && forall r | r in batch :: IdSeparatorFree(r.event)
    requires |ids| == |batch| && forall i | 0 <= i < |batch| :: ids[i] == ReportId(hash, batch[i])
    ensures Distinct(ids) <==> forall i, j | 0 <= i < j < |batch| :: !Clash(batch[i], batch[j])
  {
    forall i, j | 0 <= i < j < |batch|
      ensures ids[i] == ids[j] <==> Clash(batch[i], batch[j])
    {
      assert batch[i] in batch && batch[j] in batch;
      ClashExact(hash, batch[i], batch[j]);
    }
    if Distinct(ids) {
      forall i, j | 0 <= i < j < |batch|
        ensures !Clash(batch[i], batch[j])
      {
        assert ids[i] != ids[j];
      }
    }
  }

  lemma FreshExact(hash: string -> string, lines: seq<Line>, held: seq<Reported>, batch: seq<Reported>,
                   ids: seq<string>)
    requires Injective(hash) && SpoolHolds(hash, lines, held)
    requires forall r | r in held || r in batch :: IdSeparatorFree(r.event)
    requires |ids| == |batch| && forall i | 0 <= i < |batch| :: ids[i] == ReportId(hash, batch[i])
    ensures NoneIn(ids, Ids(lines)) <==>
            forall h, r | h in held && r in batch :: !Clash(h, r)
  {
    forall h, r | h in held && r in batch
      ensures ReportId(hash, h) == ReportId(hash, r) <==> Clash(h, r)
    {
      ClashExact(hash, h, r);
    }
    if NoneIn(ids, Ids(lines)) {
      forall h, r | h in held && r in batch
        ensures !Clash(h, r)
      {
        var i :| 0 <= i < |batch| && batch[i] == r;
        assert ids[i] !in Ids(lines);
      }
    }
    if forall h, r | h in held && r in batch :: !Clash(h, r) {
      forall i | 0 <= i < |batch|
        ensures ids[i] !in Ids(lines)
      {
        assert batch[i] in batch;
        forall h | h in held
          ensures ReportId(hash, h) != ids[i]
        {
          assert !Clash(h, batch[i]);
        }
      }
    }
  }

  // ---------------------------------------------------------------------------------------------
  // Offline delivery and replay

  /** A batch that is kept whole has an id for each event. */
  lemma WholeBatchDistinct(hash: string -> string, agent: string, session: Option<string>,
                           events: seq<ExecutionEvent>, stamps: seq<int>)
    requires Injective(hash) && |stamps| == |events| && forall e | e in events :: IdSeparatorFree(e)
    requires var batch := BatchOf(agent, session, events);
             forall i, j | 0 <= i < j < |batch| :: !Clash(batch[i], batch[j])
    ensures Distinct(RecordIds(RecordsFor(hash, agent, BodiesOf(session, events), stamps)))
  {
    var batch := BatchOf(agent, session, events);
    assert forall r | r in batch :: IdSeparatorFree(r.event);
    BatchIds(hash, agent, session, events, stamps);
    DistinctExact(hash, batch, RecordIds(RecordsFor(hash, agent, BodiesOf(session, events), stamps)));
  }

  lemma AllFirst(agent: string, records: seq<SpoolRecord>)
    requires AllIdentified(records) && Distinct(RecordIds(records))
    requires forall i | 0 <= i < |records| :: records[i].agentId == agent
    ensures forall i | 0 <= i < |records| :: First(StoredAll(records), agent, None, i)
  {
    forall i, j | 0 <= j < i < |records|
      ensures records[j].eventId != records[i].eventId
    {
      assert RecordIds(records)[j] != RecordIds(records)[i];
    }
  }

  /** A file of different events of one agent is replayed event by event. */
  lemma AllReplayed(agent: string, records: seq<SpoolRecord>, tries: Tries, sent: seq<Sent>)
    requires |tries| == |records| && AllIdentified(records) && Distinct(RecordIds(records))
    requires forall i | 0 <= i < |records| :: records[i].agentId == agent
    ensures PostsOf(StoredAll(records), agent, None, tries, sent) <==>
            |sent| == |records| &&
            forall i | 0 <= i < |records| :: sent[i] == Sent(records[i].event, Outcome(tries[i]))
    ensures forall i | 0 <= i < |records| ::
              Stays(StoredAll(records), agent, None, tries, i) <==> !Outcome(tries[i]).Acknowledged?
  {
    var lines := StoredAll(records);
    AllFirst(agent, records);
    AllSelected(lines, FirstFlags(lines, agent, None));
    AllSelected(tries, FirstFlags(lines, agent, None));
  }

  /** Delivering offline and replaying later posts what delivering online would have posted: the same bodies in
      the same order, each with what comes of its attempts; and what is not acknowledged is still in the file. */
  lemma OfflineThenReplay(hash: string -> string, agent: string, session: Option<string>,
                          events: seq<ExecutionEvent>, stamps: seq<int>, tries: Tries, sent: seq<Sent>)
    requires Injective(hash) && |stamps| == |events| == |tries| && forall e | e in events :: IdSeparatorFree(e)
    requires var batch := BatchOf(agent, session, events);
             forall i, j | 0 <= i < j < |batch| :: !Clash(batch[i], batch[j])
    ensures var lines := AppendAbsent([], RecordsFor(hash, agent, BodiesOf(session, events), stamps));
            && |lines| == |events|
            && (PostsOf(lines, agent, None, tries, sent) <==> sent == SentAll(BodiesOf(session, events), tries))
            && forall i | 0 <= i < |events| ::
                 Stays(lines, agent, None, tries, i) <==> !Outcome(tries[i]).Acknowledged?
  {
    var records := RecordsFor(hash, agent, BodiesOf(session, events), stamps);
    WholeBatchDistinct(hash, agent, session, events, stamps);
    DistinctAreStored(records);
    AllReplayed(agent, records, tries, sent);
  }
}
