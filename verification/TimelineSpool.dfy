/** The offline spool: append-if-absent writes, and the fate of every line in a replay pass. */
module TimelineSpool {
  import opened Lists
  import opened Options
  import opened TimelineChain

  datatype SpoolRecord = SpoolRecord(createdAt: int, agentId: string, eventId: Option<string>, event: EventBody)

  /** One line of the spool file, kept verbatim. */
  datatype Line = Stored(record: SpoolRecord) | Unparsable(text: string) | Blank(text: string)

  // ---------------------------------------------------------------------------------------------
  // Append-if-absent

  /** The ids in the spool, in file order.  Records from before ids existed have none. */
  function Ids(lines: seq<Line>): seq<string> {
    if lines == [] then []
    else Ids(lines[..|lines| - 1]) + IdOf(lines[|lines| - 1])
  }

  function IdOf(line: Line): seq<string> {
    if line.Stored? && line.record.eventId.Some? then [line.record.eventId.value] else []
  }

  function PutIfAbsent(lines: seq<Line>, record: SpoolRecord): seq<Line> {
    if record.eventId.Some? && record.eventId.value in Ids(lines) then lines else lines + [Stored(record)]
  }

  function AppendAbsent(lines: seq<Line>, records: seq<SpoolRecord>): seq<Line> {
    if records == [] then lines
    else PutIfAbsent(AppendAbsent(lines, records[..|records| - 1]), records[|records| - 1])
  }

  ghost predicate Distinct<T>(xs: seq<T>) {
    forall i, j | 0 <= i < j < |xs| :: xs[i] != xs[j]
  }

  /** Every element once, at the place of its first occurrence. */
  function FirstSeen<T(==)>(xs: seq<T>): seq<T> {
    if xs == [] then []
    else
      var earlier := FirstSeen(xs[..|xs| - 1]);
      if xs[|xs| - 1] in earlier then earlier else earlier + [xs[|xs| - 1]]
  }

  /** The id each record was given when it was spooled. */
  function RecordIds(records: seq<SpoolRecord>): (ids: seq<string>)
    requires AllIdentified(records)
    ensures |ids| == |records|
  {
    seq(|records|, i requires 0 <= i < |records| => records[i].eventId.value)
  }

  predicate AllIdentified(records: seq<SpoolRecord>) {
    forall i | 0 <= i < |records| :: records[i].eventId.Some?
  }

  lemma IdsSnoc(lines: seq<Line>, line: Line)
    ensures Ids(lines + [line]) == Ids(lines) + IdOf(line)
  {
    assert (lines + [line])[..|lines|] == lines;
  }

  lemma {:induction false} FirstSeenFacts<T>(xs: seq<T>)
    ensures Distinct(FirstSeen(xs))
    ensures forall x :: x in FirstSeen(xs) <==> x in xs
  {
    if xs != [] {
      var front, last := xs[..|xs| - 1], xs[|xs| - 1];
      FirstSeenFacts(front);
      assert xs == front + [last];
    }
  }

  lemma PutKeepsFirstSeen(lines: seq<Line>, ids: seq<string>, record: SpoolRecord)
    requires record.eventId.Some? && Ids(lines) == FirstSeen(ids)
    ensures Ids(PutIfAbsent(lines, record)) == FirstSeen(ids + [record.eventId.value])
  {
    assert (ids + [record.eventId.value])[..|ids|] == ids;
    IdsSnoc(lines, Stored(record));
  }

  lemma RecordIdsSnoc(records: seq<SpoolRecord>)
    requires AllIdentified(records) && records != []
    ensures RecordIds(records) == RecordIds(records[..|records| - 1]) + [records[|records| - 1].eventId.value]
  {
  }

  /** After spooling, the file holds one record per id, in the order the ids were first seen. */
  lemma {:induction false} AppendKeepsFirstSeen(lines: seq<Line>, ids: seq<string>, records: seq<SpoolRecord>)
    requires Ids(lines) == FirstSeen(ids) && AllIdentified(records)
    ensures Ids(AppendAbsent(lines, records)) == FirstSeen(ids + RecordIds(records))
    decreases |records|
  {
    if records == [] {
      assert ids + RecordIds(records) == ids;
    } else {
      var n := |records| - 1;
      AppendKeepsFirstSeen(lines, ids, records[..n]);
      PutKeepsFirstSeen(AppendAbsent(lines, records[..n]), ids + RecordIds(records[..n]), records[n]);
      RecordIdsSnoc(records);
      assert ids + RecordIds(records) == ids + RecordIds(records[..n]) + [records[n].eventId.value];
    }
  }

  /** What an append leaves. If the file cannot be read, no ids are known, and only what the append itself
      writes is kept from being written twice. */
  function Appended(lines: seq<Line>, records: seq<SpoolRecord>, readable: bool): seq<Line> {
    if readable then AppendAbsent(lines, records) else lines + AppendAbsent([], records)
  }

  predicate NoneIn(ids: seq<string>, known: seq<string>) {
    forall i | 0 <= i < |ids| :: ids[i] !in known
  }

  lemma NoneInSnoc(ids: seq<string>, id: string, known: seq<string>)
    ensures NoneIn(ids + [id], known) <==> NoneIn(ids, known) && id !in known
  {
    var longer := ids + [id];
    assert longer[|ids|] == id && forall i | 0 <= i < |ids| :: longer[i] == ids[i];
  }

  lemma DistinctSnoc(ids: seq<string>, id: string)
    ensures Distinct(ids + [id]) <==> Distinct(ids) && id !in ids
  {
    var longer := ids + [id];
    assert longer[|ids|] == id && forall i | 0 <= i < |ids| :: longer[i] == ids[i];
    if Distinct(longer) {
      assert forall i | 0 <= i < |ids| :: longer[i] != longer[|ids|];
      assert forall i, j | 0 <= i < j < |ids| :: longer[i] != longer[j];
    }
  }

  lemma {:induction false} DistinctJoined(a: seq<string>, b: seq<string>)
    ensures Distinct(a + b) <==> Distinct(a) && Distinct(b) && NoneIn(b, a)
    decreases |b|
  {
    if b == [] {
      assert a + b == a;
    } else {
      var front, last := b[..|b| - 1], b[|b| - 1];
      DistinctJoined(a, front);
      DistinctSnoc(a + front, last);
      DistinctSnoc(front, last);
      NoneInSnoc(front, last, a);
      assert a + b == a + front + [last] && b == front + [last];
    }
  }

  lemma NoneInFirstSeen(ids: seq<string>, known: seq<string>)
    ensures NoneIn(FirstSeen(ids), known) <==> NoneIn(ids, known)
  {
    FirstSeenFacts(ids);
    if NoneIn(ids, known) {
      assert forall id | id in ids :: id !in known;
    }
    if NoneIn(FirstSeen(ids), known) {
      assert forall id | id in FirstSeen(ids) :: id !in known;
    }
  }

  function StoredAll(records: seq<SpoolRecord>): (lines: seq<Line>)
    ensures |lines| == |records|
  {
    seq(|records|, i requires 0 <= i < |records| => Stored(records[i]))
  }

  /** The id is neither in the file nor that of an earlier record of the batch. */
  predicate New(lines: seq<Line>, records: seq<SpoolRecord>, i: nat)
    requires i < |records|
  {
    && (records[i].eventId.Some? ==> records[i].eventId.value !in Ids(lines))
    && forall j | 0 <= j < i :: records[i].eventId.None? || records[j].eventId != records[i].eventId
  }

  function NewFlags(lines: seq<Line>, records: seq<SpoolRecord>): (flags: seq<bool>)
    ensures |flags| == |records|
  {
    seq(|records|, i requires 0 <= i < |records| => New(lines, records, i))
  }

  lemma {:induction false} IdsAfterAppend(lines: seq<Line>, records: seq<SpoolRecord>, id: string)
    requires AllIdentified(records)
    ensures id in Ids(AppendAbsent(lines, records)) <==> id in Ids(lines) || id in RecordIds(records)
    decreases |records|
  {
    if records != [] {
      var n := |records| - 1;
      IdsAfterAppend(lines, records[..n], id);
      RecordIdsSnoc(records);
      IdsSnoc(AppendAbsent(lines, records[..n]), Stored(records[n]));
    }
  }

  lemma LastIsNewExactly(lines: seq<Line>, records: seq<SpoolRecord>)
    requires AllIdentified(records) && records != []
    ensures var n := |records| - 1;
            New(lines, records, n) <==> records[n].eventId.value !in Ids(AppendAbsent(lines, records[..n]))
  {
    var n := |records| - 1;
    var front, id := records[..n], records[n].eventId;
    IdsAfterAppend(lines, front, id.value);
    if j :| 0 <= j < n && records[j].eventId == id {
      assert RecordIds(front)[j] == id.value;
    }
    if id.value in RecordIds(front) {
      var j :| 0 <= j < n && RecordIds(front)[j] == id.value;
      assert records[j].eventId == id;
    }
  }

  lemma NewFlagsFront(lines: seq<Line>, records: seq<SpoolRecord>)
    requires records != []
    ensures NewFlags(lines, records)[..|records| - 1] == NewFlags(lines, records[..|records| - 1])
  {
  }

  lemma StoredSnoc(lines: seq<Line>, records: seq<SpoolRecord>, last: SpoolRecord)
    ensures lines + StoredAll(records + [last]) == lines + StoredAll(records) + [Stored(last)]
  {
    assert StoredAll(records + [last]) == StoredAll(records) + [Stored(last)];
  }

  /** An append leaves what is in the file and adds the new records, as they are and in order. */
  lemma {:induction false} AppendExact(lines: seq<Line>, records: seq<SpoolRecord>)
    requires AllIdentified(records)
    ensures AppendAbsent(lines, records) == lines + StoredAll(Selected(records, NewFlags(lines, records)))
    decreases |records|
  {
    if records == [] {
      assert lines + StoredAll([]) == lines;
    } else {
      var n := |records| - 1;
      var front := records[..n];
      AppendExact(lines, front);
      NewFlagsFront(lines, records);
      LastIsNewExactly(lines, records);
      var chosen := Selected(front, NewFlags(lines, front));
      StoredSnoc(lines, chosen, records[n]);
      assert chosen + [] == chosen;
    }
  }

  /** Records with different ids fill an empty file as they are. */
  lemma DistinctAreStored(records: seq<SpoolRecord>)
    requires AllIdentified(records) && Distinct(RecordIds(records))
    ensures AppendAbsent([], records) == StoredAll(records)
  {
    forall i | 0 <= i < |records|
      ensures New([], records, i)
    {
      forall j | 0 <= j < i
        ensures records[j].eventId != records[i].eventId
      {
        assert RecordIds(records)[j] != RecordIds(records)[i];
      }
    }
    AllSelected(records, NewFlags([], records));
    AppendExact([], records);
    assert [] + StoredAll(records) == StoredAll(records);
  }

  lemma {:induction false} IdsJoined(a: seq<Line>, b: seq<Line>)
    ensures Ids(a + b) == Ids(a) + Ids(b)
    decreases |b|
  {
    if b == [] {
      assert a + b == a;
    } else {
      IdsJoined(a, b[..|b| - 1]);
      JoinedLast(a, b);
    }
  }

  lemma FirstSeenSnoc<T>(xs: seq<T>, x: T)
    ensures FirstSeen(xs + [x]) == if x in xs then FirstSeen(xs) else FirstSeen(xs) + [x]
  {
    assert (xs + [x])[..|xs|] == xs;
    FirstSeenFacts(xs);
  }

  lemma SameFirstSeenSnoc<T>(a: seq<T>, b: seq<T>, x: T)
    requires FirstSeen(a) == FirstSeen(b)
    ensures FirstSeen(a + [x]) == FirstSeen(b + [x])
  {
    FirstSeenFacts(a);
    FirstSeenFacts(b);
    FirstSeenSnoc(a, x);
    FirstSeenSnoc(b, x);
  }

  /** Adding an element behind the first occurrences of a part, if it is not among them. */
  lemma FirstSeenPart<T>(a: seq<T>, b: seq<T>, x: T)
    ensures FirstSeen(a + FirstSeen(b + [x])) == FirstSeen(a + FirstSeen(b) + [x])
  {
    var part := FirstSeen(b);
    FirstSeenFacts(b);
    FirstSeenSnoc(b, x);
    if x in b {
      FirstSeenSnoc(a + part, x);
    } else {
      assert a + (part + [x]) == a + part + [x];
    }
  }

  /** Only first occurrences matter to what is seen first. */
  lemma {:induction false} FirstSeenJoined<T>(a: seq<T>, a': seq<T>, b: seq<T>)
    requires FirstSeen(a) == FirstSeen(a')
    ensures FirstSeen(a + FirstSeen(b)) == FirstSeen(a' + b)
    decreases |b|
  {
    if b == [] {
      assert a + FirstSeen(b) == a && a' + b == a';
    } else {
      var front, last := b[..|b| - 1], b[|b| - 1];
      assert b == front + [last] && a' + b == a' + front + [last];
      FirstSeenJoined(a, a', front);
      SameFirstSeenSnoc(a + FirstSeen(front), a' + front, last);
      FirstSeenPart(a, front, last);
    }
  }

  lemma {:induction false} DistinctIsFirstSeen<T>(xs: seq<T>)
    requires Distinct(xs)
    ensures FirstSeen(xs) == xs
  {
    if xs != [] {
      var front, last := xs[..|xs| - 1], xs[|xs| - 1];
      DistinctIsFirstSeen(front);
      assert xs == front + [last] && last !in front;
    }
  }

  /** Without known ids an append leaves a file without duplicates exactly if the file had none and holds none
      of the ids appended. */
  lemma UnreadAppend(lines: seq<Line>, records: seq<SpoolRecord>)
    requires AllIdentified(records)
    ensures Ids(Appended(lines, records, false)) == Ids(lines) + FirstSeen(RecordIds(records))
    ensures Distinct(Ids(Appended(lines, records, false))) <==>
            Distinct(Ids(lines)) && NoneIn(RecordIds(records), Ids(lines))
  {
    var ids, known := RecordIds(records), Ids(lines);
    IdsJoined(lines, AppendAbsent([], records));
    AppendKeepsFirstSeen([], [], records);
    assert [] + ids == ids;
    FirstSeenFacts(ids);
    DistinctJoined(known, FirstSeen(ids));
    NoneInFirstSeen(ids, known);
  }

  /** One offline delivery attempt: it writes the records before `cut` and then fails, or all. */
  datatype Attempt = Attempt(records: seq<SpoolRecord>, cut: nat, readable: bool)

  predicate ValidAttempt(a: Attempt) {
    a.cut <= |a.records| && AllIdentified(a.records)
  }

  predicate AllValid(attempts: seq<Attempt>) {
    forall i | 0 <= i < |attempts| :: ValidAttempt(attempts[i])
  }

  function SpoolAfter(attempts: seq<Attempt>): seq<Line>
    requires AllValid(attempts)
  {
    if attempts == [] then []
    else
      var last := attempts[|attempts| - 1];
      assert ValidAttempt(last);
      Appended(SpoolAfter(attempts[..|attempts| - 1]), last.records[..last.cut], last.readable)
  }

  function WrittenIds(a: Attempt): seq<string>
    requires ValidAttempt(a)
  {
    RecordIds(a.records[..a.cut])
  }

  function AttemptedIds(attempts: seq<Attempt>): seq<string>
    requires AllValid(attempts)
  {
    if attempts == [] then []
    else
      var last := attempts[|attempts| - 1];
      assert ValidAttempt(last);
      AttemptedIds(attempts[..|attempts| - 1]) + WrittenIds(last)
  }

  /** No attempt that could not read the file had an id that was spooled before it. */
  predicate NoneMissed(attempts: seq<Attempt>)
    requires AllValid(attempts)
  {
    attempts == [] ||
    var n := |attempts| - 1;
    assert ValidAttempt(attempts[n]);
    && NoneMissed(attempts[..n])
    && (attempts[n].readable || NoneIn(WrittenIds(attempts[n]), AttemptedIds(attempts[..n])))
  }

  lemma PutKeeps(lines: seq<Line>, ids: seq<string>, record: SpoolRecord)
    requires record.eventId.Some? && FirstSeen(Ids(lines)) == FirstSeen(ids)
    ensures var after := PutIfAbsent(lines, record);
            && FirstSeen(Ids(after)) == FirstSeen(ids + [record.eventId.value])
            && (Distinct(Ids(after)) <==> Distinct(Ids(lines)))
  {
    var id, known := record.eventId.value, Ids(lines);
    SameFirstSeenSnoc(known, ids, id);
    if id in known {
      FirstSeenSnoc(known, id);
    } else {
      IdsSnoc(lines, Stored(record));
      DistinctSnoc(known, id);
    }
  }

  lemma {:induction false} ReadAppend(lines: seq<Line>, ids: seq<string>, records: seq<SpoolRecord>)
    requires AllIdentified(records) && FirstSeen(Ids(lines)) == FirstSeen(ids)
    ensures FirstSeen(Ids(AppendAbsent(lines, records))) == FirstSeen(ids + RecordIds(records))
    ensures Distinct(Ids(AppendAbsent(lines, records))) <==> Distinct(Ids(lines))
    decreases |records|
  {
    if records == [] {
      assert ids + RecordIds(records) == ids;
    } else {
      var n := |records| - 1;
      ReadAppend(lines, ids, records[..n]);
      PutKeeps(AppendAbsent(lines, records[..n]), ids + RecordIds(records[..n]), records[n]);
      RecordIdsSnoc(records);
      assert ids + RecordIds(records) == ids + RecordIds(records[..n]) + [records[n].eventId.value];
    }
  }

  lemma AttemptKeeps(lines: seq<Line>, ids: seq<string>, a: Attempt)
    requires ValidAttempt(a) && FirstSeen(Ids(lines)) == FirstSeen(ids)
    ensures var after := Appended(lines, a.records[..a.cut], a.readable);
            && FirstSeen(Ids(after)) == FirstSeen(ids + WrittenIds(a))
            && (Distinct(Ids(after)) <==> Distinct(Ids(lines)) && (a.readable || NoneIn(WrittenIds(a), ids)))
  {
    var written := a.records[..a.cut];
    FirstSeenFacts(ids);
    FirstSeenFacts(Ids(lines));
    if a.readable {
      ReadAppend(lines, ids, written);
    } else {
      UnreadAppend(lines, written);
      FirstSeenJoined(Ids(lines), ids, WrittenIds(a));
      assert forall x :: x in Ids(lines) <==> x in ids;
    }
  }

  /** Over any sequence of offline deliveries, whole or cut short between two records and repeated, the spool
      holds every id ever written, in first-seen order, and each of them once exactly if no attempt that could
      not read the file brought an id that was in it. */
  lemma {:induction false} OneRecordPerId(attempts: seq<Attempt>)
    requires AllValid(attempts)
    ensures FirstSeen(Ids(SpoolAfter(attempts))) == FirstSeen(AttemptedIds(attempts))
    ensures Distinct(Ids(SpoolAfter(attempts))) <==> NoneMissed(attempts)
    ensures NoneMissed(attempts) ==> Ids(SpoolAfter(attempts)) == FirstSeen(AttemptedIds(attempts))
    decreases |attempts|
  {
    if attempts != [] {
      var n := |attempts| - 1;
      assert ValidAttempt(attempts[n]);
      OneRecordPerId(attempts[..n]);
      AttemptKeeps(SpoolAfter(attempts[..n]), AttemptedIds(attempts[..n]), attempts[n]);
    }
    if NoneMissed(attempts) {
      DistinctIsFirstSeen(Ids(SpoolAfter(attempts)));
    }
  }

  /** Ids already in the file stay there. */
  lemma PutHasIds(lines: seq<Line>, record: SpoolRecord, id: string)
    requires id in Ids(lines) || record.eventId == Some(id)
    ensures id in Ids(PutIfAbsent(lines, record))
  {
    IdsSnoc(lines, Stored(record));
  }

  lemma {:induction false} WrittenIdPresent(lines: seq<Line>, records: seq<SpoolRecord>, i: nat)
    requires AllIdentified(records) && i < |records|
    ensures records[i].eventId.value in Ids(AppendAbsent(lines, records))
    decreases |records|
  {
    var n := |records| - 1;
    if i < n {
      WrittenIdPresent(lines, records[..n], i);
    }
    PutHasIds(AppendAbsent(lines, records[..n]), records[n], records[i].eventId.value);
  }

  lemma {:induction false} AllPresentIsNoOp(lines: seq<Line>, records: seq<SpoolRecord>)
    requires AllIdentified(records)
    requires forall i | 0 <= i < |records| :: records[i].eventId.value in Ids(lines)
    ensures AppendAbsent(lines, records) == lines
    decreases |records|
  {
    if records != [] {
      AllPresentIsNoOp(lines, records[..|records| - 1]);
    }
  }

  /** Same records but for the time they were made. */
  predicate SameBatch(a: seq<SpoolRecord>, b: seq<SpoolRecord>) {
    |a| == |b| && forall i | 0 <= i < |a| :: a[i].(createdAt := 0) == b[i].(createdAt := 0)
  }

  /** Re-spooling a batch that is stored changes nothing, whatever the clock says by then, exactly if the file
      can be read the second time or there is nothing to spool. */
  lemma RespoolIsNoOp(lines: seq<Line>, batch: seq<SpoolRecord>, again: seq<SpoolRecord>, first: bool, second: bool)
    requires AllIdentified(batch) && AllIdentified(again) && SameBatch(batch, again)
    ensures var stored := Appended(lines, batch, first);
            Appended(stored, again, second) == stored <==> second || again == []
  {
    var stored := Appended(lines, batch, first);
    forall i | 0 <= i < |again|
      ensures again[i].eventId.value in Ids(stored)
    {
      WrittenIdPresent(lines, batch, i);
      WrittenIdPresent([], batch, i);
      IdsJoined(lines, AppendAbsent([], batch));
      assert again[i].(createdAt := 0).eventId == batch[i].(createdAt := 0).eventId;
    }
    AllPresentIsNoOp(stored, again);
    if again != [] {
      WrittenIdPresent([], again, 0);
      assert AppendAbsent([], again) != [];
    }
  }

  lemma {:induction false} AppendInRounds(lines: seq<Line>, a: seq<SpoolRecord>, b: seq<SpoolRecord>)
    ensures AppendAbsent(lines, a + b) == AppendAbsent(AppendAbsent(lines, a), b)
    decreases |b|
  {
    if b == [] {
      assert a + b == a;
    } else {
      AppendInRounds(lines, a, b[..|b| - 1]);
      JoinedLast(a, b);
    }
  }

  lemma PartThenAgain(lines: seq<Line>, batch: seq<SpoolRecord>, again: seq<SpoolRecord>, k: nat)
    requires AllIdentified(batch) && AllIdentified(again) && SameBatch(batch, again) && k <= |batch|
    ensures AppendAbsent(AppendAbsent(lines, batch[..k]), again)
         == AppendAbsent(lines, batch[..k] + again[k..])
  {
    var part := AppendAbsent(lines, batch[..k]);
    assert again == again[..k] + again[k..];
    AppendInRounds(part, again[..k], again[k..]);
    assert SameBatch(batch[..k], again[..k]) by {
      forall i | 0 <= i < k
        ensures batch[..k][i].(createdAt := 0) == again[..k][i].(createdAt := 0)
      {
        assert batch[i].(createdAt := 0) == again[i].(createdAt := 0);
      }
    }
    RespoolIsNoOp(lines, batch[..k], again[..k], true, true);
    AppendInRounds(lines, batch[..k], again[k..]);
  }

  /** Knowing no ids is as good as reading them exactly if none of the ids to append is in the file. */
  lemma {:induction false} UnreadIsAsGood(lines: seq<Line>, records: seq<SpoolRecord>)
    requires AllIdentified(records)
    ensures |AppendAbsent(lines, records)| <= |Appended(lines, records, false)|
    ensures AppendAbsent(lines, records) == Appended(lines, records, false) <==> NoneIn(RecordIds(records), Ids(lines))
    ensures |AppendAbsent(lines, records)| == |Appended(lines, records, false)| ==>
              NoneIn(RecordIds(records), Ids(lines))
    decreases |records|
  {
    if records == [] {
      assert lines + [] == lines;
    } else {
      var n := |records| - 1;
      var front, id := records[..n], records[n].eventId.value;
      UnreadIsAsGood(lines, front);
      RecordIdsSnoc(records);
      NoneInSnoc(RecordIds(front), id, Ids(lines));
      IdsAfterAppend(lines, front, id);
      IdsAfterAppend([], front, id);
      Associative(lines, AppendAbsent([], front), [Stored(records[n])]);
    }
  }

  /** A batch cut short after k records and then retried whole ends in the file that an unbroken
      delivery would have made, the written records of the first attempt, then the rest, exactly if the
      retry can read the file or meets none of its ids there. */
  lemma RetryCompletes(lines: seq<Line>, batch: seq<SpoolRecord>, again: seq<SpoolRecord>, k: nat, readable: bool)
    requires AllIdentified(batch) && AllIdentified(again) && SameBatch(batch, again) && k <= |batch|
    ensures var part := AppendAbsent(lines, batch[..k]);
            Appended(part, again, readable) == AppendAbsent(lines, batch[..k] + again[k..])
            <==> readable || NoneIn(RecordIds(again), Ids(part))
  {
    var part := AppendAbsent(lines, batch[..k]);
    PartThenAgain(lines, batch, again, k);
    UnreadIsAsGood(part, again);
  }

  // ---------------------------------------------------------------------------------------------
  // Replay

  /** What a replay pass does with a line. */
  datatype Fate = Ignored | Malformed | OutOfScope | Duplicate | Delivered | Failed

  predicate InScope(record: SpoolRecord, agent: string, since: Option<int>) {
    record.agentId == agent && (since.Some? ==> since.value <= record.createdAt)
  }

  function FateOf(line: Line, agent: string, since: Option<int>, seen: set<string>, answer: bool): Fate {
    match line
    case Blank(_) => Ignored
    case Unparsable(_) => Malformed
    case Stored(record) =>
      if !InScope(record, agent, since) then OutOfScope
      else if record.eventId.Some? && record.eventId.value in seen then Duplicate
      else if answer then Delivered
      else Failed
  }

  /** The ids handled in a pass over the lines. */
  function SeenIn(lines: seq<Line>, agent: string, since: Option<int>): set<string> {
    set i | 0 <= i < |lines| && lines[i].Stored? && InScope(lines[i].record, agent, since) &&
            lines[i].record.eventId.Some? :: lines[i].record.eventId.value
  }

  /** The fate of every line, given the service's answer for each line that is posted. */
  function Fates(lines: seq<Line>, agent: string, since: Option<int>, answers: seq<bool>): (fates: seq<Fate>)
    requires |answers| == |lines|
    ensures |fates| == |lines|
  {
    seq(|lines|, i requires 0 <= i < |lines| =>
      FateOf(lines[i], agent, since, SeenIn(lines[..i], agent, since), answers[i]))
  }

  predicate Retains(fate: Fate) {
    fate.Malformed? || fate.OutOfScope? || fate.Failed?
  }

  /** The lines a pass keeps, verbatim and in order. */
  function Retained(lines: seq<Line>, fates: seq<Fate>): (kept: seq<Line>)
    requires |fates| == |lines|
  {
    if lines == [] then []
    else
      var n := |lines| - 1;
      Retained(lines[..n], fates[..n]) + if Retains(fates[n]) then [lines[n]] else []
  }

  function Count(fates: seq<Fate>, kinds: set<Fate>): nat {
    if fates == [] then 0
    else Count(fates[..|fates| - 1], kinds) + if fates[|fates| - 1] in kinds then 1 else 0
  }

  datatype Report = Report(delivered: nat, failed: nat, skipped: nat)

  function ReportOf(fates: seq<Fate>): Report {
    Report(Count(fates, {Delivered}), Count(fates, {Malformed, Failed}), Count(fates, {OutOfScope, Duplicate}))
  }

  predicate Posted(fate: Fate) {
    fate.Delivered? || fate.Failed?
  }

  function NonBlank(lines: seq<Line>): nat {
    if lines == [] then 0
    else NonBlank(lines[..|lines| - 1]) + if lines[|lines| - 1].Blank? then 0 else 1
  }

  /** The report accounts for every line that is not blank. */
  lemma {:induction false} ReportConservesLines(lines: seq<Line>, agent: string, since: Option<int>, answers: seq<bool>)
    requires |answers| == |lines|
    ensures var r := ReportOf(Fates(lines, agent, since, answers));
            r.delivered + r.failed + r.skipped == NonBlank(lines)
    decreases |lines|
  {
    if lines != [] {
      var n := |lines| - 1;
      FatesPrefix(lines, agent, since, answers, n);
      ReportConservesLines(lines[..n], agent, since, answers[..n]);
    }
  }

  lemma FatesPrefix(lines: seq<Line>, agent: string, since: Option<int>, answers: seq<bool>, n: nat)
    requires |answers| == |lines| && n <= |lines|
    ensures Fates(lines, agent, since, answers)[..n] == Fates(lines[..n], agent, since, answers[..n])
  {
    forall i | 0 <= i < n
      ensures Fates(lines, agent, since, answers)[i] == Fates(lines[..n], agent, since, answers[..n])[i]
    {
      assert lines[..n][..i] == lines[..i];
    }
  }

  /** In one pass an id is posted at most once. */
  lemma PostedOnce(lines: seq<Line>, agent: string, since: Option<int>, answers: seq<bool>, i: nat, j: nat)
    requires |answers| == |lines| && i < j < |lines|
    requires Posted(Fates(lines, agent, since, answers)[i]) && Posted(Fates(lines, agent, since, answers)[j])
    ensures lines[i].Stored? && lines[j].Stored?
    ensures lines[i].record.eventId.None? || lines[i].record.eventId != lines[j].record.eventId
  {
    assert lines[..j][i] == lines[i];
  }

  /** A line that a pass drops without posting it is a copy of an earlier one, which was delivered or
      is still in the file. */
  lemma DroppedLineHasCopy(lines: seq<Line>, agent: string, since: Option<int>, answers: seq<bool>, j: nat)
      returns (i: nat)
    requires |answers| == |lines| && j < |lines|
    requires Fates(lines, agent, since, answers)[j].Duplicate?
    ensures i < j && Posted(Fates(lines, agent, since, answers)[i])
    ensures lines[i].Stored? && lines[i].record.agentId == lines[j].record.agentId
    ensures lines[i].record.eventId.Some? && lines[i].record.eventId == lines[j].record.eventId
    decreases j
  {
    var id := lines[j].record.eventId.value;
    assert id in SeenIn(lines[..j], agent, since);
    i :| 0 <= i < j && lines[..j][i].Stored? && InScope(lines[..j][i].record, agent, since) &&
         lines[..j][i].record.eventId == Some(id);
    if !Posted(Fates(lines, agent, since, answers)[i]) {
      i := DroppedLineHasCopy(lines, agent, since, answers, i);
    }
  }

  lemma {:induction false} RetainedOccurrence(lines: seq<Line>, fates: seq<Fate>, line: Line)
    requires |fates| == |lines|
    ensures line in Retained(lines, fates) <==> exists i :: 0 <= i < |lines| && lines[i] == line && Retains(fates[i])
    decreases |lines|
  {
    if lines != [] {
      var n := |lines| - 1;
      RetainedOccurrence(lines[..n], fates[..n], line);
      assert forall i | 0 <= i < n :: lines[..n][i] == lines[i] && fates[..n][i] == fates[i];
      if i :| 0 <= i < |lines| && lines[i] == line && Retains(fates[i]) {
        assert i == n || (lines[..n][i] == line && Retains(fates[..n][i]));
      }
    }
  }

  /** How rewriting the file ends. Writing begins by emptying the file, so a write that fails leaves only
      a part of the new content; a file that cannot be opened or removed stays. */
  datatype Rewrite = Rewritten | NotOpened | CutShort(lines: nat)

  function AfterRewrite(lines: seq<Line>, retained: seq<Line>, rewrite: Rewrite): seq<Line> {
    match rewrite
    case Rewritten => retained
    case NotOpened => lines
    case CutShort(n) => if n < |retained| then retained[..n] else retained
  }

  /** Another copy of the event is older than the bound of the pass. */
  predicate OlderCopy(lines: seq<Line>, since: Option<int>, record: SpoolRecord) {
    since.Some? &&
    exists k :: 0 <= k < |lines| && SameEvent(lines[k], record) && lines[k].record.createdAt < since.value
  }

  lemma RetainedCopyIsOlder(lines: seq<Line>, agent: string, since: Option<int>, answers: seq<bool>, j: nat)
    requires |answers| == |lines| && j < |lines|
    requires Fates(lines, agent, since, answers)[j].Delivered? && lines[j].record.eventId.Some?
    ensures (exists line :: line in Retained(lines, Fates(lines, agent, since, answers)) &&
                            SameEvent(line, lines[j].record))
       <==> OlderCopy(lines, since, lines[j].record)
  {
    var fates := Fates(lines, agent, since, answers);
    var record := lines[j].record;
    if line :| line in Retained(lines, fates) && SameEvent(line, record) {
      RetainedOccurrence(lines, fates, line);
      var k :| 0 <= k < |lines| && lines[k] == line && Retains(fates[k]);
      if fates[k].Failed? {
        if k < j {
          PostedOnce(lines, agent, since, answers, k, j);
        } else if j < k {
          PostedOnce(lines, agent, since, answers, j, k);
        }
      }
      assert fates[k].OutOfScope?;
    }
    if OlderCopy(lines, since, record) {
      var k :| 0 <= k < |lines| && SameEvent(lines[k], record) && lines[k].record.createdAt < since.value;
      assert fates[k].OutOfScope?;
      RetainedOccurrence(lines, fates, lines[k]);
    }
  }

  /** Whether an event delivered in this pass is in the file that the pass leaves, and so can be posted
      again by a later one: if the file was rewritten, exactly if another copy is older than `since`; if it
      was not opened, always; and if the write was cut short, only if there is such a copy. */
  lemma DeliveredComesBack(lines: seq<Line>, agent: string, since: Option<int>, answers: seq<bool>, j: nat,
                           rewrite: Rewrite)
    requires |answers| == |lines| && j < |lines|
    requires Fates(lines, agent, since, answers)[j].Delivered? && lines[j].record.eventId.Some?
    ensures var left := AfterRewrite(lines, Retained(lines, Fates(lines, agent, since, answers)), rewrite);
            var back := exists line :: line in left && SameEvent(line, lines[j].record);
            && (!rewrite.CutShort? ==> (back <==> rewrite.NotOpened? || OlderCopy(lines, since, lines[j].record)))
            && (rewrite.CutShort? && back ==> OlderCopy(lines, since, lines[j].record))
  {
    RetainedCopyIsOlder(lines, agent, since, answers, j);
    assert lines[j] in lines && SameEvent(lines[j], lines[j].record);
    var retained := Retained(lines, Fates(lines, agent, since, answers));
    if rewrite.CutShort? && rewrite.lines < |retained| {
      assert forall line | line in retained[..rewrite.lines] :: line in retained;
    }
  }

  predicate SameEvent(line: Line, record: SpoolRecord) {
    line.Stored? && line.record.agentId == record.agentId && line.record.eventId == record.eventId
  }
}
