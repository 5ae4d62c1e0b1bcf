/** What a replay pass does, told from the lines and the attempts alone: which lines are posted, which stay,
    and what is counted. */
module TimelineReplay {
  import opened Lists
  import opened Options
  import opened TimelineChain
  import opened TimelineService
  import opened TimelineSpool

  /** The attempts of each of several posts. */
  type Tries = seq<seq<Reply>>

  function Answers(tries: Tries): (answers: seq<bool>)
    ensures |answers| == |tries|
  {
    seq(|tries|, i requires 0 <= i < |tries| => Outcome(tries[i]).Acknowledged?)
  }

  /** The posts of a replay pass. */
  function SentIn(lines: seq<Line>, fates: seq<Fate>, tries: Tries): seq<Sent>
    requires |fates| == |tries| == |lines|
    requires forall i | 0 <= i < |lines| && Posted(fates[i]) :: lines[i].Stored?
  {
    if lines == [] then []
    else
      var n := |lines| - 1;
      var front := SentIn(lines[..n], fates[..n], tries[..n]);
      if Posted(fates[n]) then front + [Sent(lines[n].record.event, Outcome(tries[n]))] else front
  }

  lemma PostedAreStored(lines: seq<Line>, agent: string, since: Option<int>, answers: seq<bool>)
    requires |answers| == |lines|
    ensures forall i | 0 <= i < |lines| && Posted(Fates(lines, agent, since, answers)[i]) :: lines[i].Stored?
  {
  }

  // ---------------------------------------------------------------------------------------------
  // Lines and attempts alone

  /** The line holds an event of the agent that is not older than the bound. */
  predicate Wanted(line: Line, agent: string, since: Option<int>) {
    line.Stored? && line.record.agentId == agent && (since.Some? ==> line.record.createdAt >= since.value)
  }

  /** A wanted line that is not a copy of an earlier one. */
  predicate First(lines: seq<Line>, agent: string, since: Option<int>, i: nat)
    requires i < |lines|
  {
    && Wanted(lines[i], agent, since)
    && (lines[i].record.eventId.Some? ==>
          forall j | 0 <= j < i && Wanted(lines[j], agent, since) :: lines[j].record.eventId != lines[i].record.eventId)
  }

  predicate Arrives(tries: Tries, i: nat)
    requires i < |tries|
  {
    Outcome(tries[i]).Acknowledged?
  }

  /** What is still in a rewritten file: lines that cannot be parsed or are not wanted, and first copies whose
      post was not acknowledged. */
  predicate Stays(lines: seq<Line>, agent: string, since: Option<int>, tries: Tries, i: nat)
    requires i < |lines| == |tries|
  {
    || lines[i].Unparsable?
    || (lines[i].Stored? && !Wanted(lines[i], agent, since))
    || (First(lines, agent, since, i) && !Arrives(tries, i))
  }

  function FirstFlags(lines: seq<Line>, agent: string, since: Option<int>): (flags: seq<bool>)
    ensures |flags| == |lines|
  {
    seq(|lines|, i requires 0 <= i < |lines| => First(lines, agent, since, i))
  }

  function StayFlags(lines: seq<Line>, agent: string, since: Option<int>, tries: Tries): (flags: seq<bool>)
    requires |tries| == |lines|
    ensures |flags| == |lines|
  {
    seq(|lines|, i requires 0 <= i < |lines| => Stays(lines, agent, since, tries, i))
  }

  /** The posts are those of the first copies, in order, each with what came of its attempts. */
  predicate PostsOf(lines: seq<Line>, agent: string, since: Option<int>, tries: Tries, sent: seq<Sent>)
    requires |tries| == |lines|
  {
    var flags := FirstFlags(lines, agent, since);
    var posted, attempts := Selected(lines, flags), Selected(tries, flags);
    && |sent| == |posted| == |attempts|
    && forall k | 0 <= k < |sent| ::
         posted[k].Stored? && sent[k].body == posted[k].record.event && sent[k].posting == Outcome(attempts[k])
  }

  /** The report counts what was acknowledged, what was not or could not be parsed, and the rest. */
  ghost predicate Reports(lines: seq<Line>, agent: string, since: Option<int>, tries: Tries, report: Report)
    requires |tries| == |lines|
  {
    && report.delivered == |set i: nat | i < |lines| && First(lines, agent, since, i) && Arrives(tries, i)|
    && report.failed == |set i: nat | i < |lines| &&
                             (lines[i].Unparsable? || (First(lines, agent, since, i) && !Arrives(tries, i)))|
    && report.skipped == |set i: nat | i < |lines| && lines[i].Stored? && !First(lines, agent, since, i)|
  }

  // ---------------------------------------------------------------------------------------------
  // The fates say the same

  lemma SeenExact(lines: seq<Line>, agent: string, since: Option<int>, i: nat)
    requires i < |lines| && Wanted(lines[i], agent, since) && lines[i].record.eventId.Some?
    ensures lines[i].record.eventId.value in SeenIn(lines[..i], agent, since) <==> !First(lines, agent, since, i)
  {
    var before, id := lines[..i], lines[i].record.eventId;
    if id.value in SeenIn(before, agent, since) {
      var j :| 0 <= j < i && before[j].Stored? && InScope(before[j].record, agent, since) &&
               before[j].record.eventId == id;
      assert Wanted(lines[j], agent, since) && lines[j].record.eventId == id;
    }
    if !First(lines, agent, since, i) {
      var j :| 0 <= j < i && Wanted(lines[j], agent, since) && lines[j].record.eventId == id;
      assert before[j] == lines[j];
    }
  }

  lemma FateExact(lines: seq<Line>, agent: string, since: Option<int>, tries: Tries, i: nat)
    requires i < |lines| == |tries|
    ensures var fate := Fates(lines, agent, since, Answers(tries))[i];
            && (fate.Ignored? <==> lines[i].Blank?)
            && (fate.Malformed? <==> lines[i].Unparsable?)
            && (fate.OutOfScope? <==> lines[i].Stored? && !Wanted(lines[i], agent, since))
            && (fate.Duplicate? <==> Wanted(lines[i], agent, since) && !First(lines, agent, since, i))
            && (fate.Delivered? <==> First(lines, agent, since, i) && Arrives(tries, i))
            && (fate.Failed? <==> First(lines, agent, since, i) && !Arrives(tries, i))
  {
    if Wanted(lines[i], agent, since) && lines[i].record.eventId.Some? {
      SeenExact(lines, agent, since, i);
    }
  }

  lemma StaysExactly(lines: seq<Line>, agent: string, since: Option<int>, tries: Tries, i: nat)
    requires i < |lines| == |tries|
    ensures var fate := Fates(lines, agent, since, Answers(tries))[i];
            && (Posted(fate) <==> First(lines, agent, since, i))
            && (Retains(fate) <==> Stays(lines, agent, since, tries, i))
  {
    FateExact(lines, agent, since, tries, i);
  }

  lemma {:induction false} RetainedIsSelected(lines: seq<Line>, fates: seq<Fate>, flags: seq<bool>)
    requires |fates| == |lines| == |flags| && forall i | 0 <= i < |lines| :: flags[i] <==> Retains(fates[i])
    ensures Retained(lines, fates) == Selected(lines, flags)
    decreases |lines|
  {
    if lines != [] {
      var n := |lines| - 1;
      RetainedIsSelected(lines[..n], fates[..n], flags[..n]);
    }
  }

  lemma {:induction false} SentIsSelected(lines: seq<Line>, fates: seq<Fate>, tries: Tries, flags: seq<bool>)
    requires |fates| == |lines| == |flags| == |tries|
    requires forall i | 0 <= i < |lines| :: flags[i] <==> Posted(fates[i])
    requires forall i | 0 <= i < |lines| && Posted(fates[i]) :: lines[i].Stored?
    ensures var sent, posted, attempts := SentIn(lines, fates, tries), Selected(lines, flags), Selected(tries, flags);
            && |sent| == |posted| == |attempts|
            && forall k | 0 <= k < |sent| ::
                 posted[k].Stored? && sent[k] == Sent(posted[k].record.event, Outcome(attempts[k]))
    decreases |lines|
  {
    if lines != [] {
      var n := |lines| - 1;
      SentIsSelected(lines[..n], fates[..n], tries[..n], flags[..n]);
    }
  }

  ghost function Among(fates: seq<Fate>, kinds: set<Fate>): set<nat> {
    set i: nat | i < |fates| && fates[i] in kinds
  }

  lemma {:induction false} CountIsSize(fates: seq<Fate>, kinds: set<Fate>)
    ensures Count(fates, kinds) == |Among(fates, kinds)|
  {
    if fates == [] {
      assert Among(fates, kinds) == {};
    } else {
      var n := |fates| - 1;
      CountIsSize(fates[..n], kinds);
      assert Among(fates, kinds) == Among(fates[..n], kinds) + if fates[n] in kinds then {n} else {};
    }
  }

  lemma ReportExact(lines: seq<Line>, agent: string, since: Option<int>, tries: Tries)
    requires |tries| == |lines|
    ensures Reports(lines, agent, since, tries, ReportOf(Fates(lines, agent, since, Answers(tries))))
  {
    var fates := Fates(lines, agent, since, Answers(tries));
    forall i: nat | i < |lines|
      ensures fates[i] in {Delivered} <==> First(lines, agent, since, i) && Arrives(tries, i)
      ensures fates[i] in {Malformed, Failed} <==>
                lines[i].Unparsable? || (First(lines, agent, since, i) && !Arrives(tries, i))
      ensures fates[i] in {OutOfScope, Duplicate} <==> lines[i].Stored? && !First(lines, agent, since, i)
    {
      FateExact(lines, agent, since, tries, i);
    }
    CountIsSize(fates, {Delivered});
    CountIsSize(fates, {Malformed, Failed});
    CountIsSize(fates, {OutOfScope, Duplicate});
    assert Among(fates, {Delivered}) == set i: nat | i < |lines| && First(lines, agent, since, i) && Arrives(tries, i);
    assert Among(fates, {Malformed, Failed})
        == set i: nat | i < |lines| && (lines[i].Unparsable? || (First(lines, agent, since, i) && !Arrives(tries, i)));
    assert Among(fates, {OutOfScope, Duplicate})
        == set i: nat | i < |lines| && lines[i].Stored? && !First(lines, agent, since, i);
  }

  /** A replay pass posts the first copy of every wanted event, keeps exactly the lines that stay, and reports
      what came of it. */
  lemma PassExact(lines: seq<Line>, agent: string, since: Option<int>, tries: Tries)
    requires |tries| == |lines|
    ensures var fates := Fates(lines, agent, since, Answers(tries));
            && (forall i | 0 <= i < |lines| && Posted(fates[i]) :: lines[i].Stored?)
            && Retained(lines, fates) == Selected(lines, StayFlags(lines, agent, since, tries))
            && PostsOf(lines, agent, since, tries, SentIn(lines, fates, tries))
            && Reports(lines, agent, since, tries, ReportOf(fates))
  {
    var fates := Fates(lines, agent, since, Answers(tries));
    forall i | 0 <= i < |lines|
      ensures Posted(fates[i]) <==> First(lines, agent, since, i)
      ensures Retains(fates[i]) <==> Stays(lines, agent, since, tries, i)
    {
      StaysExactly(lines, agent, since, tries, i);
    }
    RetainedIsSelected(lines, fates, StayFlags(lines, agent, since, tries));
    SentIsSelected(lines, fates, tries, FirstFlags(lines, agent, since));
    ReportExact(lines, agent, since, tries);
  }

  // ---------------------------------------------------------------------------------------------
  // Nothing is lost

  /** The first copy of a wanted event. */
  lemma FirstCopy(lines: seq<Line>, agent: string, since: Option<int>, i: nat) returns (j: nat)
    requires i < |lines| && Wanted(lines[i], agent, since)
    ensures j <= i && First(lines, agent, since, j) && SameEvent(lines[j], lines[i].record)
    ensures lines[i].record.eventId.None? ==> j == i
    decreases i
  {
    if First(lines, agent, since, i) {
      j := i;
    } else {
      var k :| 0 <= k < i && Wanted(lines[k], agent, since) && lines[k].record.eventId == lines[i].record.eventId;
      j := FirstCopy(lines, agent, since, k);
    }
  }

  /** No wanted event is lost: unless a post of it was acknowledged in the pass, the rewritten file has a line
      that holds it. */
  lemma NothingLost(lines: seq<Line>, agent: string, since: Option<int>, tries: Tries, i: nat)
    requires |tries| == |lines| && i < |lines| && Wanted(lines[i], agent, since)
    requires forall j | 0 <= j < |lines| && First(lines, agent, since, j) && SameEvent(lines[j], lines[i].record) ::
               !Outcome(tries[j]).Acknowledged?
    ensures exists line :: line in Selected(lines, StayFlags(lines, agent, since, tries)) &&
                           SameEvent(line, lines[i].record)
  {
    var j := FirstCopy(lines, agent, since, i);
    SelectedHas(lines, StayFlags(lines, agent, since, tries), j);
  }
}
