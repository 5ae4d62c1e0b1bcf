/** The cache and its files under concurrent callers.

    Every call is one critical section on the cache and then one file write per touched category,
    which takes the lock again.  A write either replaces the file or fails and leaves it. */
module InstinctPersistence {
  import opened Options
  import opened InstinctStore

  // ---------------------------------------------------------------------------------------------
  // Category files

  /** The store's own directory, or another. */
  datatype Place = Here | There(directory: string)

  /** Where the directory part of a category leads. It is the file system that says so: `./` is the store's
      own directory, and so is `sub/../` if `sub` exists. */
  type Places = string -> Place

  datatype Location = Location(place: Place, name: string)

  /** The length of the directory part of a category: everything up to its last slash. */
  function DirectoryLength(category: string): (k: nat)
    ensures k <= |category| && '/' !in category[k..]
    ensures k == 0 <==> '/' !in category
  {
    if category == "" then 0
    else
      var n := |category| - 1;
      assert category == category[..n] + [category[n]];
      if category[n] == '/' then n + 1
      else
        var k := DirectoryLength(category[..n]);
        assert category[k..] == category[..n][k..] + [category[n]];
        k
  }

  /** The file that a category is written to. */
  function LocationOf(places: Places, category: string): Location {
    var k := DirectoryLength(category);
    Location(if k == 0 then Here else places(category[..k]), category[k..] + ".json")
  }

  /** The extension of the name is `json`; a name that is all extension has none. */
  predicate HasJsonExtension(name: string) {
    |name| > 5 && name[|name| - 5..] == ".json"
  }

  /** A scan of the store's directory takes the file in. */
  predicate Scanned(location: Location) {
    location.place.Here? && HasJsonExtension(location.name)
  }

  /** For a category without slashes only the empty name is not scanned, and no other shares its file. */
  lemma PlainNames(places: Places, category: string, other: string)
    requires '/' !in category
    ensures Scanned(LocationOf(places, category)) <==> category != ""
    ensures '/' !in other ==> (LocationOf(places, category) == LocationOf(places, other) <==> category == other)
  {
    var name := category + ".json";
    assert category[0..] == category && other[0..] == other;
    assert name[|category|..] == ".json" && name[..|category|] == category;
    assert (other + ".json")[..|other|] == other;
  }

  /** `pending` are the categories each call still has to write; `failed` those whose last write was
      given up, the one that failed and the ones its call did not get to. */
  datatype State = State(
    cache: Cache,
    files: map<Location, Bucket>,
    pending: map<nat, set<string>>,
    failed: set<string>,
    places: Places)

  datatype Step =
    | Register(task: nat, instinct: Instinct)
    | Record(task: nat, category: string, id: nat, success: bool)
    | Import(task: nat, incoming: seq<Instinct>)
    | Persist(task: nat, category: string)
    | PersistFails(task: nat, category: string)

  function NewInstinct(id: nat, category: string, pattern: string, description: string): Instinct {
    Instinct(id, category, pattern, description, 0.5, 0, 0)
  }

  predicate Enabled(s: State, step: Step) {
    match step
    case Register(task, i) =>
      task !in s.pending && i == NewInstinct(i.id, i.category, i.pattern, i.description)
    case Record(task, category, id, _) =>
      task !in s.pending && category in s.cache && FindId(s.cache[category], id).Some?
    case Import(task, _) => task !in s.pending
    case Persist(task, category) => task in s.pending && category in s.pending[task] && category in s.cache
    case PersistFails(task, category) => task in s.pending && category in s.pending[task]
  }

  /** The outcome goes to the first instinct of the bucket with that id. */
  function WithOutcome(bucket: Bucket, id: nat, success: bool): Bucket
    requires FindId(bucket, id).Some?
  {
    var k := FindId(bucket, id).value;
    bucket[k := Recorded(bucket[k], success)]
  }

  function Apply(s: State, step: Step): State
    requires Enabled(s, step)
  {
    match step
    case Register(task, i) => s.(cache := AddIfNew(s.cache, i), pending := s.pending[task := {i.category}])
    case Record(task, category, id, success) =>
      s.(cache := s.cache[category := WithOutcome(s.cache[category], id, success)],
         pending := s.pending[task := {category}])
    case Import(task, incoming) =>
      var r := ImportAll(s.cache, incoming);
      s.(cache := r.cache, pending := s.pending[task := r.touched])
    case Persist(task, category) =>
      s.(files := s.files[LocationOf(s.places, category) := s.cache[category]],
         pending := s.pending[task := s.pending[task] - {category}],
         failed := s.failed - {category})
    case PersistFails(task, category) =>
      s.(pending := s.pending[task := {}], failed := s.failed + s.pending[task])
  }

  predicate Waiting(s: State, category: string) {
    exists task | task in s.pending :: category in s.pending[task]
  }

  predicate UpToDate(s: State, category: string) {
    var location := LocationOf(s.places, category);
    category in s.cache && location in s.files && s.files[location] == s.cache[category]
  }

  /** Another cached category is written to the same file. */
  predicate Shares(s: State, category: string) {
    exists other | other in s.cache ::
      other != category && LocationOf(s.places, other) == LocationOf(s.places, category)
  }

  /** The file holds a bucket of a category that is written there. */
  ghost predicate Owned(places: Places, location: Location, bucket: Bucket) {
    bucket != [] && GoodBucket(bucket[0].category, bucket) && LocationOf(places, bucket[0].category) == location
  }

  ghost predicate FilesOwned(s: State) {
    forall location | location in s.files ::
      && Owned(s.places, location, s.files[location])
      && (Scanned(location) ==> s.files[location][0].category in s.cache)
  }

  /** A category's file has its bucket, or a write is pending or was given up, or the file is shared. */
  ghost predicate Accounted(s: State, category: string) {
    UpToDate(s, category) || Waiting(s, category) || category in s.failed || Shares(s, category)
  }

  ghost predicate Inv(s: State) {
    && Tidy(s.cache)
    && FilesOwned(s)
    && (forall task, category | task in s.pending && category in s.pending[task] :: category in s.cache)
    && (forall category | category in s.cache :: Accounted(s, category))
  }

  lemma OutcomeKeepsGood(category: string, bucket: Bucket, id: nat, success: bool)
    requires GoodBucket(category, bucket) && FindId(bucket, id).Some?
    ensures GoodBucket(category, WithOutcome(bucket, id, success))
  {
    var k := FindId(bucket, id).value;
    var after := WithOutcome(bucket, id, success);
    forall i, j | 0 <= i < j < |after|
      ensures !SameTriple(after[i], after[j])
    {
      assert !SameTriple(bucket[i], bucket[j]);
    }
  }

  /** The outcome is counted for the first instinct of the bucket with that id, and nothing else changes. */
  ghost predicate OutcomeCounted(before: Cache, after: Cache, category: string, id: nat, success: bool) {
    && category in before && after.Keys == before.Keys
    && (forall other | other in before && other != category :: after[other] == before[other])
    && |after[category]| == |before[category]|
    && exists k :: 0 <= k < |before[category]| && CountedAt(before[category], after[category], k, id, success)
  }

  ghost predicate CountedAt(before: Bucket, after: Bucket, k: nat, id: nat, success: bool)
    requires |after| == |before| && k < |before|
  {
    && before[k].id == id && (forall j | 0 <= j < k :: before[j].id != id)
    && Counted(before[k], after[k], success)
    && forall j | 0 <= j < |before| && j != k :: after[j] == before[j]
  }

  lemma OutcomeExact(s: State, task: nat, category: string, id: nat, success: bool)
    requires Enabled(s, Record(task, category, id, success))
    ensures OutcomeCounted(s.cache, Apply(s, Record(task, category, id, success)).cache, category, id, success)
  {
    var bucket := s.cache[category];
    var k := FindId(bucket, id).value;
    RecordedIsCounted(bucket[k], success);
    assert CountedAt(bucket, WithOutcome(bucket, id, success), k, id, success);
  }

  ghost predicate Registered(before: Bucket, after: Bucket, i: Instinct) {
    after == if Suggested(before, i) then before else before + [i]
  }

  /** Registering finds the instinct that suggests the same, or adds one without a history behind the others. */
  lemma RegisterExact(s: State, task: nat, id: nat, category: string, pattern: string, description: string)
    requires task !in s.pending
    ensures var i := NewInstinct(id, category, pattern, description);
            var after := Apply(s, Register(task, i)).cache;
            && (forall other | other != category :: BucketOf(after, other) == BucketOf(s.cache, other))
            && Registered(BucketOf(s.cache, category), BucketOf(after, category),
                          Instinct(id, category, pattern, description, 0.5, 0, 0))
  {
    var i := NewInstinct(id, category, pattern, description);
    forall other
      ensures BucketOf(AddIfNew(s.cache, i), other) == BucketOf(s.cache, other) || other == category
    {
      AddIfNewExact(s.cache, i, other);
    }
    AddIfNewExact(s.cache, i, category);
    var found := FindTriple(BucketOf(s.cache, category), pattern, description);
    assert found.Some? ==> Suggested(BucketOf(s.cache, category), i);
  }

  /** An import leaves every category it does not touch alone and the touched ones in the cache. */
  lemma {:induction false} ImportFacts(cache: Cache, incoming: seq<Instinct>)
    requires Tidy(cache)
    ensures var r := ImportAll(cache, incoming);
            && Tidy(r.cache) && r.touched <= r.cache.Keys && cache.Keys <= r.cache.Keys
            && forall category | category in r.cache && category !in r.touched ::
                 category in cache && r.cache[category] == cache[category]
  {
    if incoming != [] {
      var n := |incoming| - 1;
      ImportFacts(cache, incoming[..n]);
      AddKeepsTidy(ImportAll(cache, incoming[..n]).cache, incoming[n]);
    }
  }

  lemma RegisterKeepsInv(s: State, task: nat, i: Instinct)
    requires Inv(s) && Enabled(s, Register(task, i))
    ensures Inv(Apply(s, Register(task, i)))
  {
    var t := Apply(s, Register(task, i));
    AddKeepsTidy(s.cache, i);
    forall category | category in t.cache
      ensures Accounted(t, category)
    {
      if category == i.category {
        assert category in t.pending[task];
      } else {
        WaitingStays(s, t, category);
      }
    }
  }

  /** A call that starts does not take anybody's pending write away. */
  lemma WaitingStays(s: State, t: State, category: string)
    requires forall task | task in s.pending :: task in t.pending && t.pending[task] == s.pending[task]
    ensures Waiting(s, category) ==> Waiting(t, category)
  {
    if Waiting(s, category) {
      var task :| task in s.pending && category in s.pending[task];
      assert category in t.pending[task];
    }
  }

  lemma RecordKeepsInv(s: State, task: nat, category: string, id: nat, success: bool)
    requires Inv(s) && Enabled(s, Record(task, category, id, success))
    ensures Inv(Apply(s, Record(task, category, id, success)))
  {
    var t := Apply(s, Record(task, category, id, success));
    OutcomeKeepsGood(category, s.cache[category], id, success);
    forall c | c in t.cache
      ensures Accounted(t, c)
    {
      if c == category {
        assert c in t.pending[task];
      } else {
        WaitingStays(s, t, c);
      }
    }
  }

  lemma ImportKeepsInv(s: State, task: nat, incoming: seq<Instinct>)
    requires Inv(s) && Enabled(s, Import(task, incoming))
    ensures Inv(Apply(s, Import(task, incoming)))
  {
    var t := Apply(s, Import(task, incoming));
    ImportFacts(s.cache, incoming);
    forall c | c in t.cache
      ensures Accounted(t, c)
    {
      if c in t.pending[task] {
        assert Waiting(t, c);
      } else {
        WaitingStays(s, t, c);
      }
    }
  }

  lemma PersistKeepsInv(s: State, task: nat, category: string)
    requires Inv(s) && Enabled(s, Persist(task, category))
    ensures Inv(Apply(s, Persist(task, category)))
  {
    var t := Apply(s, Persist(task, category));
    assert GoodBucket(category, s.cache[category]);
    forall c | c in t.cache
      ensures Accounted(t, c)
    {
      if c != category && Waiting(s, c) {
        var other :| other in s.pending && c in s.pending[other];
        assert c in t.pending[other];
      }
    }
  }

  lemma PersistFailsKeepsInv(s: State, task: nat, category: string)
    requires Inv(s) && Enabled(s, PersistFails(task, category))
    ensures Inv(Apply(s, PersistFails(task, category)))
  {
    var t := Apply(s, PersistFails(task, category));
    forall c | c in t.cache
      ensures Accounted(t, c)
    {
      if Waiting(s, c) && c !in s.pending[task] {
        var other :| other in s.pending && c in s.pending[other];
        assert c in t.pending[other];
      }
    }
  }

  lemma InvKept(s: State, step: Step)
    requires Inv(s) && Enabled(s, step)
    ensures Inv(Apply(s, step))
  {
    match step
    case Register(task, i) => RegisterKeepsInv(s, task, i);
    case Record(task, category, id, success) => RecordKeepsInv(s, task, category, id, success);
    case Import(task, incoming) => ImportKeepsInv(s, task, incoming);
    case Persist(task, category) => PersistKeepsInv(s, task, category);
    case PersistFails(task, category) => PersistFailsKeepsInv(s, task, category);
  }

  ghost predicate Legal(s: State, steps: seq<Step>)
    decreases |steps|
  {
    steps == [] || (Enabled(s, steps[0]) && Legal(Apply(s, steps[0]), steps[1..]))
  }

  ghost function Final(s: State, steps: seq<Step>): State
    requires Legal(s, steps)
    decreases |steps|
  {
    if steps == [] then s else Final(Apply(s, steps[0]), steps[1..])
  }

  lemma {:induction false} InvOverRun(s: State, steps: seq<Step>)
    requires Inv(s) && Legal(s, steps)
    ensures Inv(Final(s, steps))
    decreases |steps|
  {
    if steps != [] {
      InvKept(s, steps[0]);
      InvOverRun(Apply(s, steps[0]), steps[1..]);
    }
  }

  function FileAt(s: State, location: Location): Option<Bucket> {
    if location in s.files then Some(s.files[location]) else None
  }

  /** What the category had in the cache when the file was last written in the run; `before` if it was not. */
  ghost function LastWritten(s: State, steps: seq<Step>, location: Location, before: Option<Bucket>): Option<Bucket>
    requires Legal(s, steps)
    decreases |steps|
  {
    if steps == [] then before
    else
      var writes := steps[0].Persist? && LocationOf(s.places, steps[0].category) == location;
      LastWritten(Apply(s, steps[0]), steps[1..], location,
                  if writes then Some(s.cache[steps[0].category]) else before)
  }

  /** Over every run, failed writes included, a file holds what its category had when it was last written, or
      what it held at the start if it was not written: nothing else changes a file. */
  lemma {:induction false} FilesAreLastWrites(s: State, steps: seq<Step>, location: Location)
    requires Legal(s, steps)
    ensures FileAt(Final(s, steps), location) == LastWritten(s, steps, location, FileAt(s, location))
    decreases |steps|
  {
    if steps != [] {
      FilesAreLastWrites(Apply(s, steps[0]), steps[1..], location);
    }
  }

  ghost predicate AllScored(cache: Cache) {
    forall category, k | category in cache && 0 <= k < |cache[category]| :: Scored(cache[category][k])
  }

  ghost predicate ImportsScored(step: Step) {
    step.Import? ==> forall i | i in step.incoming :: Scored(i)
  }

  lemma StepKeepsScored(s: State, step: Step)
    requires Enabled(s, step) && AllScored(s.cache) && ImportsScored(step)
    ensures AllScored(Apply(s, step).cache)
  {
    match step
    case Register(task, i) =>
      LaplaceScores(0, 0);
      AddIfNewExact(s.cache, i, i.category);
    case Record(task, category, id, success) =>
      OutcomeExact(s, task, category, id, success);
    case Import(task, incoming) =>
      forall category, k | category in ImportAll(s.cache, incoming).cache &&
                           0 <= k < |ImportAll(s.cache, incoming).cache[category]|
        ensures Scored(ImportAll(s.cache, incoming).cache[category][k])
      {
        ImportExact(s.cache, incoming, category);
      }
    case _ =>
  }

  /** Over every run whose imports are scored, the confidence of every instinct is the smoothed rate of the
      outcomes counted for it. */
  lemma {:induction false} ScoredOverRun(s: State, steps: seq<Step>)
    requires Legal(s, steps) && AllScored(s.cache) && forall i | 0 <= i < |steps| :: ImportsScored(steps[i])
    ensures AllScored(Final(s, steps).cache)
    decreases |steps|
  {
    if steps != [] {
      StepKeepsScored(s, steps[0]);
      ScoredOverRun(Apply(s, steps[0]), steps[1..]);
    }
  }

  /** What a call can rely on while others run. */
  lemma {:induction false} OthersLeavePending(s: State, steps: seq<Step>, task: nat)
    requires Legal(s, steps) && forall i | 0 <= i < |steps| :: steps[i].task != task
    ensures task in Final(s, steps).pending <==> task in s.pending
    ensures task in s.pending ==> Final(s, steps).pending[task] == s.pending[task]
    decreases |steps|
  {
    if steps != [] {
      assert steps[0].task != task;
      OthersLeavePending(Apply(s, steps[0]), steps[1..], task);
    }
  }

  lemma {:induction false} Split(s: State, a: seq<Step>, b: seq<Step>)
    requires Legal(s, a + b)
    ensures Legal(s, a) && Legal(Final(s, a), b) && Final(s, a + b) == Final(Final(s, a), b)
    decreases |a|
  {
    if a == [] {
      assert a + b == b;
    } else {
      assert (a + b)[1..] == a[1..] + b;
      Split(Apply(s, a[0]), a[1..], b);
    }
  }

  lemma {:induction false} Snoc(s: State, steps: seq<Step>, step: Step)
    requires Legal(s, steps) && Enabled(Final(s, steps), step)
    ensures Legal(s, steps + [step]) && Final(s, steps + [step]) == Apply(Final(s, steps), step)
    decreases |steps|
  {
    if steps == [] {
      assert steps + [step] == [step] && [step][1..] == [];
    } else {
      Snoc(Apply(s, steps[0]), steps[1..], step);
      assert (steps + [step])[1..] == steps[1..] + [step];
    }
  }

  // ---------------------------------------------------------------------------------------------
  // Reopening

  datatype Content = Unreadable | Garbled | Parsed(bucket: Bucket)

  datatype DirEntry = DirEntry(name: string, content: Content)

  /** What opening makes of a directory listed in some order: nothing if a file with the extension cannot
      be read or parsed, and otherwise each bucket that is not empty under the category of its first
      instinct, the last one listed if there are several. */
  function Opened(listing: seq<DirEntry>): Option<Cache> {
    if listing == [] then Some(map[])
    else
      var n := |listing| - 1;
      match Opened(listing[..n])
      case None => None
      case Some(cache) =>
        if !HasJsonExtension(listing[n].name) then Some(cache)
        else
          match listing[n].content
          case Parsed(bucket) => Some(if bucket == [] then cache else cache[bucket[0].category := bucket])
          case _ => None
  }

  method Open(listing: seq<DirEntry>) returns (cache: Option<Cache>)
    ensures cache == Opened(listing)
  {
    var loaded: Cache := map[];
    var index := 0;
    while index < |listing|
      invariant 0 <= index <= |listing|
      invariant Opened(listing[..index]) == Some(loaded)
    {
      assert listing[..index + 1][..index] == listing[..index];
      var entry := listing[index];
      index := index + 1;
      if !HasJsonExtension(entry.name) {
        continue;
      }
      if !entry.content.Parsed? {
        FirstFaultStays(listing, index);
        return None;
      }
      if entry.content.bucket != [] {
        loaded := loaded[entry.content.bucket[0].category := entry.content.bucket];
      }
    }
    assert listing[..index] == listing;
    cache := Some(loaded);
  }

  lemma {:induction false} FirstFaultStays(listing: seq<DirEntry>, n: nat)
    requires n <= |listing| && Opened(listing[..n]).None?
    ensures Opened(listing).None?
  {
    if n == |listing| {
      assert listing[..n] == listing;
    } else {
      assert listing[..|listing| - 1][..n] == listing[..n];
      FirstFaultStays(listing[..|listing| - 1], n);
    }
  }

  predicate Loadable(e: DirEntry) {
    HasJsonExtension(e.name) ==> e.content.Parsed?
  }

  /** The entry supplies the bucket of a category. */
  predicate Supplies(e: DirEntry, category: string) {
    HasJsonExtension(e.name) && e.content.Parsed? && e.content.bucket != [] && e.content.bucket[0].category == category
  }

  /** Opening fails exactly if some file with the extension cannot be loaded. */
  lemma {:induction false} OpenFailsExactly(listing: seq<DirEntry>)
    ensures Opened(listing).None? <==> exists i :: 0 <= i < |listing| && !Loadable(listing[i])
  {
    if listing != [] {
      var n := |listing| - 1;
      OpenFailsExactly(listing[..n]);
      if i :| 0 <= i < |listing| && !Loadable(listing[i]) {
        assert i < n ==> !Loadable(listing[..n][i]);
      }
      if i :| 0 <= i < n && !Loadable(listing[..n][i]) {
        assert !Loadable(listing[i]);
      }
    }
  }

  /** A category is loaded with a bucket exactly if its last supplier supplies it. */
  lemma {:induction false} OpenedExact(listing: seq<DirEntry>, category: string, bucket: Bucket)
    requires Opened(listing).Some?
    ensures category in Opened(listing).value && Opened(listing).value[category] == bucket
       <==> exists i :: 0 <= i < |listing| && LastSupplier(listing, i, category, bucket)
  {
    if listing != [] {
      var n := |listing| - 1;
      var front := listing[..n];
      assert forall i | 0 <= i < n :: front[i] == listing[i];
      OpenedExact(front, category, bucket);
      if Supplies(listing[n], category) {
        if listing[n].content.bucket == bucket {
          assert LastSupplier(listing, n, category, bucket);
        }
      } else {
        if i :| 0 <= i < |listing| && LastSupplier(listing, i, category, bucket) {
          assert LastSupplier(front, i, category, bucket);
        }
        if i :| 0 <= i < n && LastSupplier(front, i, category, bucket) {
          assert LastSupplier(listing, i, category, bucket);
        }
      }
    }
  }

  /** Entry i supplies the bucket, and no later entry supplies the category at all. */
  predicate LastSupplier(listing: seq<DirEntry>, i: nat, category: string, bucket: Bucket)
    requires i < |listing|
  {
    && Supplies(listing[i], category) && listing[i].content.bucket == bucket
    && forall j | i < j < |listing| :: !Supplies(listing[j], category)
  }

  /** The listing of the store's directory, in some order: every name once, and under every name with the
      extension the file that is there. */
  ghost predicate IsListing(listing: seq<DirEntry>, files: map<Location, Bucket>) {
    && (forall i, j | 0 <= i < j < |listing| :: listing[i].name != listing[j].name)
    && (forall i | 0 <= i < |listing| && HasJsonExtension(listing[i].name) ::
          Location(Here, listing[i].name) in files &&
          listing[i].content == Parsed(files[Location(Here, listing[i].name)]))
    && (forall location | location in files && Scanned(location) ::
          exists i :: 0 <= i < |listing| && listing[i].name == location.name)
  }

  function FirstCategory(bucket: Bucket): Option<string> {
    if bucket == [] then None else Some(bucket[0].category)
  }

  /** A category comes from one file only. */
  lemma SameFileSameName(places: Places, files: map<Location, Bucket>, e: DirEntry, f: DirEntry, category: string)
    requires forall location | location in files :: Owned(places, location, files[location])
    requires forall entry | entry in {e, f} && HasJsonExtension(entry.name) ::
               Location(Here, entry.name) in files && entry.content == Parsed(files[Location(Here, entry.name)])
    requires Supplies(e, category)
    ensures Supplies(f, category) ==> e.name == f.name
  {
    if Supplies(f, category) {
      assert e in {e, f} && f in {e, f};
      assert Owned(places, Location(Here, e.name), e.content.bucket);
      assert Owned(places, Location(Here, f.name), f.content.bucket);
    }
  }

  /** From a directory that the store has written, each scanned file is loaded under its own category. */
  lemma OpenedFromFiles(places: Places, listing: seq<DirEntry>, files: map<Location, Bucket>, category: string)
    requires IsListing(listing, files)
    requires forall location | location in files :: Owned(places, location, files[location])
    ensures Opened(listing).Some?
    ensures var location := LocationOf(places, category);
            var cache := Opened(listing).value;
            && (category in cache <==>
                  Scanned(location) && location in files && FirstCategory(files[location]) == Some(category))
            && (category in cache ==> cache[category] == files[location])
  {
    OpenFailsExactly(listing);
    var cache := Opened(listing).value;
    var location := LocationOf(places, category);
    if category in cache {
      OpenedExact(listing, category, cache[category]);
      var i :| 0 <= i < |listing| && LastSupplier(listing, i, category, cache[category]);
      assert Owned(places, Location(Here, listing[i].name), cache[category]);
    }
    if Scanned(location) && location in files && FirstCategory(files[location]) == Some(category) {
      var i :| 0 <= i < |listing| && listing[i].name == location.name;
      forall j | i < j < |listing|
        ensures !Supplies(listing[j], category)
      {
        SameFileSameName(places, files, listing[i], listing[j], category);
      }
      assert LastSupplier(listing, i, category, files[location]);
      OpenedExact(listing, category, files[location]);
    }
  }

  /** No call is writing and no write has been given up. */
  predicate Quiet(s: State) {
    s.failed == {} && forall task | task in s.pending :: s.pending[task] == {}
  }

  /** Every category has a scanned file of its own. */
  ghost predicate EachHasItsFile(s: State) {
    && (forall category | category in s.cache :: Scanned(LocationOf(s.places, category)))
    && (forall category | category in s.cache :: !Shares(s, category))
  }

  predicate SameAt(a: Cache, b: Cache, category: string) {
    (category in a <==> category in b) && (category in a ==> a[category] == b[category])
  }

  lemma SameEverywhere(a: Cache, b: Cache)
    requires forall category :: SameAt(a, b, category)
    ensures a == b
  {
    forall category
      ensures category in a <==> category in b
      ensures category in a ==> a[category] == b[category]
    {
      assert SameAt(a, b, category);
    }
  }

  lemma QuietCategory(s: State, listing: seq<DirEntry>, category: string)
    requires Inv(s) && Quiet(s) && IsListing(listing, s.files) && EachHasItsFile(s)
    ensures Opened(listing).Some? && SameAt(Opened(listing).value, s.cache, category)
  {
    OpenedFromFiles(s.places, listing, s.files, category);
    if category in s.cache {
      assert Accounted(s, category) && !Waiting(s, category) && !Shares(s, category);
      assert UpToDate(s, category) && GoodBucket(category, s.cache[category]);
    }
  }

  lemma FilesReopen(s: State, listing: seq<DirEntry>)
    requires Inv(s) && Quiet(s) && IsListing(listing, s.files) && EachHasItsFile(s)
    ensures Opened(listing) == Some(s.cache)
  {
    QuietCategory(s, listing, "");
    forall category
      ensures SameAt(Opened(listing).value, s.cache, category)
    {
      QuietCategory(s, listing, category);
    }
    SameEverywhere(Opened(listing).value, s.cache);
  }

  lemma ReopenedHaveFiles(s: State, listing: seq<DirEntry>)
    requires Inv(s) && IsListing(listing, s.files) && Opened(listing) == Some(s.cache)
    ensures EachHasItsFile(s)
  {
    forall category | category in s.cache
      ensures Scanned(LocationOf(s.places, category)) && !Shares(s, category)
    {
      OpenedFromFiles(s.places, listing, s.files, category);
      forall other | other in s.cache && LocationOf(s.places, other) == LocationOf(s.places, category)
        ensures other == category
      {
        OpenedFromFiles(s.places, listing, s.files, other);
      }
    }
  }

  /** A store without pending or given up writes reopens to the contents it had, in whatever order its
      directory is listed, exactly if every category has a file of its own that a scan finds. */
  lemma QuietStoreReopens(start: State, steps: seq<Step>, listing: seq<DirEntry>)
    requires Inv(start) && Legal(start, steps) && Quiet(Final(start, steps))
    requires IsListing(listing, Final(start, steps).files)
    ensures Opened(listing) == Some(Final(start, steps).cache) <==> EachHasItsFile(Final(start, steps))
  {
    InvOverRun(start, steps);
    var s := Final(start, steps);
    if EachHasItsFile(s) {
      FilesReopen(s, listing);
    }
    if Opened(listing) == Some(s.cache) {
      ReopenedHaveFiles(s, listing);
    }
  }

  /** For categories without slashes that is the case exactly if none of them is empty. */
  lemma SlashFreeCategories(s: State)
    requires forall category | category in s.cache :: '/' !in category
    ensures EachHasItsFile(s) <==> "" !in s.cache
  {
    forall category, other | category in s.cache && other in s.cache
      ensures Scanned(LocationOf(s.places, category)) <==> category != ""
      ensures LocationOf(s.places, category) == LocationOf(s.places, other) <==> category == other
    {
      PlainNames(s.places, category, other);
    }
  }

  // ---------------------------------------------------------------------------------------------
  // Queries

  predicate MatchesOperation(i: Instinct, operation: string) {
    i.pattern == "*" || i.pattern == operation
  }

  /** Puts an instinct behind all those at least as confident. */
  function InsertDesc(i: Instinct, sorted: Bucket): (r: Bucket)
    ensures multiset(r) == multiset(sorted) + multiset{i}
  {
    if sorted == [] then [i]
    else
      var n := |sorted| - 1;
      assert sorted == sorted[..n] + [sorted[n]];
      if sorted[n].confidence < i.confidence then InsertDesc(i, sorted[..n]) + [sorted[n]]
      else sorted + [i]
  }

  ghost predicate Descending(bucket: Bucket) {
    forall i, j | 0 <= i < j < |bucket| :: bucket[j].confidence <= bucket[i].confidence
  }

  function OfConfidence(bucket: Bucket, c: real): Bucket {
    if bucket == [] then []
    else
      var n := |bucket| - 1;
      OfConfidence(bucket[..n], c) + if bucket[n].confidence == c then [bucket[n]] else []
  }

  function Matching(bucket: Bucket, operation: string): Bucket {
    if bucket == [] then []
    else
      var n := |bucket| - 1;
      if MatchesOperation(bucket[n], operation) then Matching(bucket[..n], operation) + [bucket[n]]
      else Matching(bucket[..n], operation)
  }

  lemma {:induction false} InsertKeepsDescending(i: Instinct, sorted: Bucket)
    requires Descending(sorted)
    ensures Descending(InsertDesc(i, sorted))
    decreases |sorted|
  {
    var n := |sorted| - 1;
    if sorted == [] || i.confidence <= sorted[n].confidence {
      DescendingSnoc(sorted, i);
    } else {
      var front := InsertDesc(i, sorted[..n]);
      InsertKeepsDescending(i, sorted[..n]);
      forall k | 0 <= k < |front|
        ensures sorted[n].confidence <= front[k].confidence
      {
        assert front[k] in multiset(front);
        assert front[k] == i || front[k] in sorted[..n];
      }
      DescendingSnoc(front, sorted[n]);
    }
  }

  lemma DescendingSnoc(front: Bucket, last: Instinct)
    requires Descending(front) && forall k | 0 <= k < |front| :: last.confidence <= front[k].confidence
    ensures Descending(front + [last])
  {
  }

  lemma OfConfidenceSnoc(bucket: Bucket, i: Instinct, c: real)
    ensures OfConfidence(bucket + [i], c)
         == if i.confidence == c then OfConfidence(bucket, c) + [i] else OfConfidence(bucket, c)
  {
    assert (bucket + [i])[..|bucket|] == bucket;
  }

  /** An insertion goes behind everything equally confident and disturbs nothing else. */
  lemma {:induction false} InsertIsStable(i: Instinct, sorted: Bucket, c: real)
    requires Descending(sorted)
    ensures OfConfidence(InsertDesc(i, sorted), c) == OfConfidence(sorted + [i], c)
    decreases |sorted|
  {
    if sorted != [] && sorted[|sorted| - 1].confidence < i.confidence {
      var n := |sorted| - 1;
      var front, last := sorted[..n], sorted[n];
      assert sorted == front + [last];
      InsertIsStable(i, front, c);
      OfConfidenceSnoc(front, i, c);
      OfConfidenceSnoc(front, last, c);
      OfConfidenceSnoc(sorted, i, c);
      OfConfidenceSnoc(InsertDesc(i, front), last, c);
      assert InsertDesc(i, sorted) == InsertDesc(i, front) + [last];
    }
  }

  /** The matching instincts of a bucket, sorted by insertion. */
  function Ranked(bucket: Bucket, operation: string): Bucket {
    if bucket == [] then []
    else
      var n := |bucket| - 1;
      if MatchesOperation(bucket[n], operation) then InsertDesc(bucket[n], Ranked(bucket[..n], operation))
      else Ranked(bucket[..n], operation)
  }

  /** The ranking has the matching instincts, most confident first, and in bucket order among equals. */
  lemma {:induction false} RankedExact(bucket: Bucket, operation: string, c: real)
    ensures Descending(Ranked(bucket, operation))
    ensures multiset(Ranked(bucket, operation)) == multiset(Matching(bucket, operation))
    ensures OfConfidence(Ranked(bucket, operation), c) == OfConfidence(Matching(bucket, operation), c)
    decreases |bucket|
  {
    if bucket != [] {
      var n := |bucket| - 1;
      RankedExact(bucket[..n], operation, c);
      if MatchesOperation(bucket[n], operation) {
        var before := Ranked(bucket[..n], operation);
        InsertKeepsDescending(bucket[n], before);
        InsertIsStable(bucket[n], before, c);
        OfConfidenceSnoc(before, bucket[n], c);
        OfConfidenceSnoc(Matching(bucket[..n], operation), bucket[n], c);
      }
    }
  }

  /** A pattern matches the operation that it names, and `*` matches every operation. */
  lemma {:induction false} RankedMatches(bucket: Bucket, operation: string, i: Instinct)
    ensures multiset(Ranked(bucket, operation))[i]
         == if i.pattern == "*" || i.pattern == operation then multiset(bucket)[i] else 0
  {
    if bucket != [] {
      var n := |bucket| - 1;
      RankedMatches(bucket[..n], operation, i);
      assert bucket == bucket[..n] + [bucket[n]];
    }
  }

  /** A query filters the bucket and sorts what is left. */
  method Query(cache: Cache, category: string, operation: string) returns (out: Bucket)
    ensures out == Ranked(BucketOf(cache, category), operation)
  {
    var bucket := BucketOf(cache, category);
    out := [];
    var index := 0;
    while index < |bucket|
      invariant 0 <= index <= |bucket|
      invariant out == Ranked(bucket[..index], operation)
    {
      assert bucket[..index + 1][..index] == bucket[..index];
      if MatchesOperation(bucket[index], operation) {
        out := InsertDesc(bucket[index], out);
      }
      index := index + 1;
    }
    assert bucket[..index] == bucket;
  }

  // ---------------------------------------------------------------------------------------------
  // The store as callers use it

  /** The step is in the trace at or after a position. */
  ghost predicate DidSince(trace: seq<Step>, from: nat, step: Step) {
    exists i :: from <= i < |trace| && trace[i] == step
  }

  /** `later` continues `earlier` with steps of other calls only. */
  ghost predicate OthersRan(earlier: seq<Step>, later: seq<Step>, task: nat) {
    earlier <= later && forall i | |earlier| <= i < |later| :: later[i].task != task
  }

  class Store {
    var state: State
    ghost var start: State
    ghost var trace: seq<Step>

    ghost predicate Valid()
      reads this
    {
      Inv(start) && Legal(start, trace) && state == Final(start, trace)
    }

    /** Opens a directory as a store left it. */
    constructor (places: Places, listing: seq<DirEntry>, files: map<Location, Bucket>)
      requires IsListing(listing, files)
      requires forall location | location in files :: Owned(places, location, files[location])
      ensures Valid() && trace == [] && Opened(listing) == Some(state.cache)
      ensures state == State(state.cache, files, map[], {}, places)
    {
      var loaded := Open(listing);
      OpenedFromFiles(places, listing, files, "");
      forall category
        ensures var cache := loaded.value; var location := LocationOf(places, category);
                && (category in cache ==> location in files && cache[category] == files[location] &&
                                          GoodBucket(category, cache[category]))
                && (Scanned(location) && location in files && FirstCategory(files[location]) == Some(category) ==>
                      category in cache)
      {
        OpenedFromFiles(places, listing, files, category);
      }
      state := State(loaded.value, files, map[], {}, places);
      start := State(loaded.value, files, map[], {}, places);
      trace := [];
    }

    method Do(step: Step)
      requires Valid() && Enabled(state, step)
      modifies this
      ensures Valid() && start == old(start) && state == Apply(old(state), step) && trace == old(trace) + [step]
    {
      Snoc(start, trace, step);
      state := Apply(state, step);
      trace := trace + [step];
    }

    /** Any number of steps of other calls.  Callers learn nothing else. */
    method Interfere(task: nat)
      requires Valid()
      modifies this
      ensures Valid() && start == old(start) && OthersRan(old(trace), trace, task)
    {
    }

    ghost method AloneWith(task: nat, before: seq<Step>)
      requires Valid() && Legal(start, before) && OthersRan(before, trace, task)
      ensures task in state.pending <==> task in Final(start, before).pending
      ensures task in state.pending ==> state.pending[task] == Final(start, before).pending[task]
      ensures Inv(state)
    {
      var since := trace[|before|..];
      assert before + since == trace;
      Split(start, before, since);
      OthersLeavePending(Final(start, before), since, task);
      InvOverRun(start, trace);
    }

    /** Writes the touched categories one by one, while others go on, until a write fails.  `ok` says that
        every one of them was written by this call; otherwise a write of this call failed. */
    method PersistAll(task: nat) returns (ok: bool)
      requires Valid() && task in state.pending
      modifies this
      ensures Valid() && start == old(start) && old(trace) <= trace
      ensures task in state.pending && state.pending[task] == {}
      ensures ok ==> forall c | c in old(state.pending[task]) :: DidSince(trace, |old(trace)|, Persist(task, c))
      ensures !ok ==> exists c | c in old(state.pending[task]) :: DidSince(trace, |old(trace)|, PersistFails(task, c))
    {
      ok := true;
      ghost var all := state.pending[task];
      var left := state.pending[task];
      while left != {}
        invariant Valid() && start == old(start) && old(trace) <= trace
        invariant task in state.pending && state.pending[task] == left <= all
        invariant forall c | c in all - left :: DidSince(trace, |old(trace)|, Persist(task, c))
        decreases left
      {
        ok := PersistNext(task, all - left, |old(trace)|);
        if !ok {
          return;
        }
        left := state.pending[task];
      }
    }

    /** One write of a call, after any number of steps of others. */
    method PersistNext(task: nat, ghost done: set<string>, ghost from: nat) returns (ok: bool)
      requires Valid() && task in state.pending && state.pending[task] != {}
      requires from <= |trace| && forall c | c in done :: DidSince(trace, from, Persist(task, c))
      modifies this
      ensures Valid() && start == old(start) && old(trace) <= trace && task in state.pending
      ensures ok ==> exists c | c in old(state.pending[task]) ::
                && state.pending[task] == old(state.pending[task]) - {c}
                && forall d | d in done + {c} :: DidSince(trace, from, Persist(task, d))
      ensures !ok ==> state.pending[task] == {} && exists c | c in old(state.pending[task]) ::
                DidSince(trace, from, PersistFails(task, c))
    {
      ghost var before := trace;
      Interfere(task);
      AloneWith(task, before);
      ghost var middle := trace;
      var category :| category in state.pending[task];
      ok := *;
      if !ok {
        Do(PersistFails(task, category));
        assert trace[|middle|] == PersistFails(task, category);
        return;
      }
      Do(Persist(task, category));
      assert trace[|middle|] == Persist(task, category);
      forall d | d in done + {category}
        ensures DidSince(trace, from, Persist(task, d))
      {
        if d in done {
          var i :| from <= i < |before| && before[i] == Persist(task, d);
          assert trace[i] == Persist(task, d);
        }
      }
    }

    /** Under the lock the instinct is found or added; then its category is written.  `after` is the
        state in which the lock was let go. */
    method RegisterInstinct(task: nat, fresh': nat, category: string, pattern: string, description: string)
      returns (ok: bool, id: nat, ghost after: State)
      requires Valid() && task !in state.pending
      modifies this
      ensures Valid() && task in state.pending && state.pending[task] == {} && old(trace) <= trace
      ensures after == Apply(old(state), Register(task, NewInstinct(fresh', category, pattern, description)))
      ensures ok ==> DidSince(trace, |old(trace)|, Persist(task, category))
      ensures Registered(BucketOf(old(state).cache, category), BucketOf(after.cache, category),
                         Instinct(fresh', category, pattern, description, 0.5, 0, 0))
      ensures var bucket := BucketOf(after.cache, category);
              exists k :: 0 <= k < |bucket| && bucket[k].id == id &&
                          bucket[k].pattern == pattern && bucket[k].description == description
    {
      var known := FindTriple(BucketOf(state.cache, category), pattern, description);
      id := if known.Some? then state.cache[category][known.value].id else fresh';
      RegisterExact(state, task, fresh', category, pattern, description);
      Do(Register(task, NewInstinct(fresh', category, pattern, description)));
      after := state;
      ghost var bucket := BucketOf(after.cache, category);
      ghost var k := if known.Some? then known.value else |bucket| - 1;
      assert bucket[k].id == id && bucket[k].pattern == pattern && bucket[k].description == description;
      ghost var registered := trace;
      ok := PersistAll(task);
      DidEarlier(trace, |old(trace)|, |registered|);
    }

    /** Under the lock the outcome is counted for the instinct, if some category has it; then that
        category is written. */
    method RecordOutcome(task: nat, id: nat, success: bool)
      returns (ok: bool, found: Option<string>, ghost after: State)
      requires Valid() && task !in state.pending
      modifies this
      ensures Valid()
      ensures found.None? ==>
                state == old(state) && trace == old(trace) &&
                forall category | category in state.cache :: FindId(state.cache[category], id).None?
      ensures found.Some? ==>
                && Enabled(old(state), Record(task, found.value, id, success))
                && after == Apply(old(state), Record(task, found.value, id, success))
                && OutcomeCounted(old(state).cache, after.cache, found.value, id, success)
                && old(trace) <= trace && task in state.pending && state.pending[task] == {}
                && (ok ==> DidSince(trace, |old(trace)|, Persist(task, found.value)))
    {
      ok, after := true, state;
      found := FindCategory(state.cache, id);
      if found.Some? {
        OutcomeExact(state, task, found.value, id, success);
        Do(Record(task, found.value, id, success));
        after := state;
        ghost var recorded := trace;
        ok := PersistAll(task);
        DidEarlier(trace, |old(trace)|, |recorded|);
      }
    }

    /** Under the lock the new instincts of a batch are added; then the categories that grew are written. */
    method Import(task: nat, incoming: seq<Instinct>)
      returns (ok: bool, added: nat, merged: nat, ghost after: State)
      requires Valid() && task !in state.pending
      modifies this
      ensures Valid() && task in state.pending && state.pending[task] == {} && old(trace) <= trace
      ensures after == Apply(old(state), Step.Import(task, incoming))
      ensures added + merged == |incoming|
      ensures Imported(after.cache, added, merged, after.pending[task]) == ImportAll(old(state).cache, incoming)
      ensures ok ==> forall c | c in after.pending[task] :: DidSince(trace, |old(trace)|, Persist(task, c))
    {
      var r := ImportBatch(state.cache, incoming);
      ImportIsCounted(state.cache, incoming);
      added, merged := r.added, r.merged;
      Do(Step.Import(task, incoming));
      after := state;
      ghost var imported := trace;
      ok := PersistAll(task);
      DidEarlier(trace, |old(trace)|, |imported|);
    }
  }

  lemma DidEarlier(trace: seq<Step>, from: nat, later: nat)
    requires from <= later
    ensures forall step :: DidSince(trace, later, step) ==> DidSince(trace, from, step)
  {
  }

  /** Some category with an instinct of that id, in whatever order the cache lists them. */
  method FindCategory(cache: Cache, id: nat) returns (found: Option<string>)
    ensures found.Some? ==> found.value in cache && FindId(cache[found.value], id).Some?
    ensures found.None? ==> forall category | category in cache :: FindId(cache[category], id).None?
  {
    var left := cache.Keys;
    while left != {}
      invariant left <= cache.Keys
      invariant forall category | category in cache && category !in left :: FindId(cache[category], id).None?
      decreases left
    {
      var category :| category in left;
      if FindId(cache[category], id).Some? {
        return Some(category);
      }
      left := left - {category};
    }
    found := None;
  }

  /** The loop over an import. */
  method ImportBatch(cache: Cache, incoming: seq<Instinct>) returns (r: Imported)
    ensures r == ImportAll(cache, incoming)
  {
    r := Imported(cache, 0, 0, {});
    var index := 0;
    while index < |incoming|
      invariant 0 <= index <= |incoming|
      invariant r == ImportAll(cache, incoming[..index])
    {
      assert incoming[..index + 1][..index] == incoming[..index];
      r := ImportOne(r, incoming[index]);
      index := index + 1;
    }
    assert incoming[..index] == incoming;
  }

  lemma {:induction false} ImportIsCounted(cache: Cache, incoming: seq<Instinct>)
    ensures ImportAll(cache, incoming).added + ImportAll(cache, incoming).merged == |incoming|
  {
    if incoming != [] {
      ImportIsCounted(cache, incoming[..|incoming| - 1]);
    }
  }
}
