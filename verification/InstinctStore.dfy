/** The instinct store: an in-memory cache behind a lock and one file per failure category.

    A caller changes the cache in one critical section and writes the touched files afterwards, so
    the two halves of concurrent calls interleave.  Confidences are reals. */
module InstinctStore {
  import opened Lists
  import opened Options

  const MAX_U64: nat := 0xFFFF_FFFF_FFFF_FFFF

  datatype Instinct = Instinct(
    id: nat,
    category: string,
    pattern: string,
    description: string,
    confidence: real,
    support: nat,
    failures: nat)

  type Bucket = seq<Instinct>

  type Cache = map<string, Bucket>

  // ---------------------------------------------------------------------------------------------
  // Confidence

  /** Laplace-smoothed success rate. */
  function Laplace(support: nat, failures: nat): (c: real)
    ensures 0.0 < c < 1.0
  {
    var c := (support as real + 1.0) / (support as real + failures as real + 2.0);
    LaplaceInside(support as real, failures as real);
    c
  }

  lemma LaplaceInside(s: real, f: real)
    requires 0.0 <= s && 0.0 <= f
    ensures 0.0 < (s + 1.0) / (s + f + 2.0) < 1.0
  {
    var c, d := (s + 1.0) / (s + f + 2.0), s + f + 2.0;
    assert c * d == s + 1.0;
  }

  function SaturatingInc(n: nat): nat {
    if n < MAX_U64 then n + 1 else n
  }

  function CountedUp(i: Instinct, success: bool): Instinct {
    if success then i.(support := SaturatingInc(i.support)) else i.(failures := SaturatingInc(i.failures))
  }

  /** The outcome is counted and the confidence computed anew. */
  function Recorded(i: Instinct, success: bool): Instinct {
    var counted := CountedUp(i, success);
    counted.(confidence := Laplace(counted.support, counted.failures))
  }

  /** The confidence of an instinct is the smoothed rate of its counts. */
  predicate Scored(i: Instinct) {
    i.confidence * (i.support as real + i.failures as real + 2.0) == i.support as real + 1.0
  }

  lemma LaplaceScores(support: nat, failures: nat)
    ensures Laplace(support, failures) * (support as real + failures as real + 2.0) == support as real + 1.0
  {
  }

  lemma RatesCompare(c: real, s: real, f: real, c': real, s': real, f': real)
    requires 0.0 <= s && 0.0 <= f && 0.0 <= s' && 0.0 <= f'
    requires c * (s + f + 2.0) == s + 1.0 && c' * (s' + f' + 2.0) == s' + 1.0
    requires (s + 1.0) * (f' + 1.0) <= (s' + 1.0) * (f + 1.0)
    ensures c <= c'
  {
    var d, d' := s + f + 2.0, s' + f' + 2.0;
    assert (s + 1.0) * d' == (s + 1.0) * (s' + 1.0) + (s + 1.0) * (f' + 1.0);
    assert (s' + 1.0) * d == (s + 1.0) * (s' + 1.0) + (s' + 1.0) * (f + 1.0);
    assert c * (d * d') <= c' * (d * d') by {
      assert c * (d * d') == (c * d) * d' && c' * (d * d') == (c' * d') * d;
    }
    assert d * d' > 0.0;
  }

  predicate CountsMove(before: Instinct, after: Instinct, success: bool) {
    && after == before.(support := after.support, failures := after.failures, confidence := after.confidence)
    && after.support == (if success && before.support < MAX_U64 then before.support + 1 else before.support)
    && after.failures == (if !success && before.failures < MAX_U64 then before.failures + 1 else before.failures)
  }

  lemma CountedUpMoves(i: Instinct, success: bool)
    ensures CountsMove(i, CountedUp(i, success), success)
  {
  }

  lemma RecordedMoves(i: Instinct, success: bool)
    ensures CountsMove(i, Recorded(i, success), success)
  {
    CountedUpMoves(i, success);
  }

  /** An outcome was counted: one more success or one more failure below the cap, nothing else but the
      confidence, which is that of the new counts and moves in the direction of the outcome. */
  predicate Counted(before: Instinct, after: Instinct, success: bool) {
    && CountsMove(before, after, success)
    && Scored(after)
    && (Scored(before) ==> if success then before.confidence <= after.confidence
                           else after.confidence <= before.confidence)
  }

  lemma RecordedIsCounted(i: Instinct, success: bool)
    ensures Counted(i, Recorded(i, success), success)
  {
    var r := Recorded(i, success);
    var s, f, s', f' := i.support as real, i.failures as real, r.support as real, r.failures as real;
    RecordedMoves(i, success);
    LaplaceScores(r.support, r.failures);
    if Scored(i) {
      if success {
        assert (s + 1.0) * (f' + 1.0) <= (s' + 1.0) * (f + 1.0);
        RatesCompare(i.confidence, s, f, r.confidence, s', f');
      } else {
        assert (s' + 1.0) * (f + 1.0) <= (s + 1.0) * (f' + 1.0);
        RatesCompare(r.confidence, s', f', i.confidence, s, f);
      }
    }
  }

  // ---------------------------------------------------------------------------------------------
  // Buckets

  predicate SameTriple(a: Instinct, b: Instinct) {
    a.category == b.category && a.pattern == b.pattern && a.description == b.description
  }

  /** The place of the first instinct of a bucket that suggests the same for the same operations. */
  function FindTriple(bucket: Bucket, pattern: string, description: string): (r: Option<nat>)
    ensures r.Some? ==> r.value < |bucket|
    ensures r.Some? ==> bucket[r.value].pattern == pattern && bucket[r.value].description == description
    ensures r.None? ==>
              forall i | 0 <= i < |bucket| :: !(bucket[i].pattern == pattern && bucket[i].description == description)
  {
    if bucket == [] then None
    else if bucket[0].pattern == pattern && bucket[0].description == description then Some(0)
    else
      match FindTriple(bucket[1..], pattern, description)
      case None => None
      case Some(k) => Some(k + 1)
  }

  function FindId(bucket: Bucket, id: nat): (r: Option<nat>)
    ensures r.Some? ==>
              r.value < |bucket| && bucket[r.value].id == id && forall i | 0 <= i < r.value :: bucket[i].id != id
    ensures r.None? ==> forall i | 0 <= i < |bucket| :: bucket[i].id != id
  {
    if bucket == [] then None
    else if bucket[0].id == id then Some(0)
    else
      match FindId(bucket[1..], id)
      case None => None
      case Some(k) => Some(k + 1)
  }

  ghost predicate GoodBucket(category: string, bucket: Bucket) {
    && bucket != []
    && (forall i | 0 <= i < |bucket| :: bucket[i].category == category)
    && (forall i, j | 0 <= i < j < |bucket| :: !SameTriple(bucket[i], bucket[j]))
  }

  /** Every bucket holds instincts of its own category, no two with the same triple. */
  ghost predicate Tidy(cache: Cache) {
    forall category | category in cache :: GoodBucket(category, cache[category])
  }

  function BucketOf(cache: Cache, category: string): Bucket {
    if category in cache then cache[category] else []
  }

  /** Adds an instinct unless its triple is there already. */
  function AddIfNew(cache: Cache, i: Instinct): Cache {
    var bucket := BucketOf(cache, i.category);
    if FindTriple(bucket, i.pattern, i.description).Some? then cache else cache[i.category := bucket + [i]]
  }

  lemma AddKeepsTidy(cache: Cache, i: Instinct)
    requires Tidy(cache)
    ensures Tidy(AddIfNew(cache, i))
  {
    assert i.category in cache ==> GoodBucket(i.category, cache[i.category]);
  }

  // ---------------------------------------------------------------------------------------------
  // Export and import

  datatype Imported = Imported(cache: Cache, added: nat, merged: nat, touched: set<string>)

  function ImportOne(r: Imported, i: Instinct): Imported {
    if Has(r.cache, i) then r.(merged := r.merged + 1)
    else Imported(AddIfNew(r.cache, i), r.added + 1, r.merged, r.touched + {i.category})
  }

  function ImportAll(cache: Cache, incoming: seq<Instinct>): Imported {
    if incoming == [] then Imported(cache, 0, 0, {})
    else ImportOne(ImportAll(cache, incoming[..|incoming| - 1]), incoming[|incoming| - 1])
  }

  /** All buckets one after the other, the categories in any order. */
  function ExportAll(cache: Cache, order: seq<string>): seq<Instinct>
    requires forall k | 0 <= k < |order| :: order[k] in cache
  {
    if order == [] then []
    else ExportAll(cache, order[..|order| - 1]) + cache[order[|order| - 1]]
  }

  predicate Has(cache: Cache, i: Instinct) {
    FindTriple(BucketOf(cache, i.category), i.pattern, i.description).Some?
  }

  lemma {:induction false} ImportOfKnown(cache: Cache, incoming: seq<Instinct>)
    requires forall k | 0 <= k < |incoming| :: Has(cache, incoming[k])
    ensures ImportAll(cache, incoming) == Imported(cache, 0, |incoming|, {})
  {
    if incoming != [] {
      ImportOfKnown(cache, incoming[..|incoming| - 1]);
    }
  }

  lemma {:induction false} ExportedIsKnown(cache: Cache, order: seq<string>)
    requires Tidy(cache) && forall k | 0 <= k < |order| :: order[k] in cache
    ensures forall k | 0 <= k < |ExportAll(cache, order)| :: Has(cache, ExportAll(cache, order)[k])
  {
    if order != [] {
      var n := |order| - 1;
      ExportedIsKnown(cache, order[..n]);
      assert GoodBucket(order[n], cache[order[n]]);
    }
  }

  /** Importing an export of the store into the store adds nothing and merges everything. */
  lemma ReimportAddsNothing(cache: Cache, order: seq<string>)
    requires Tidy(cache) && forall k | 0 <= k < |order| :: order[k] in cache
    ensures ImportAll(cache, ExportAll(cache, order)) == Imported(cache, 0, |ExportAll(cache, order)|, {})
  {
    ExportedIsKnown(cache, order);
    ImportOfKnown(cache, ExportAll(cache, order));
  }

  lemma AddIfNewExact(cache: Cache, i: Instinct, category: string)
    ensures var before, after := BucketOf(cache, category), BucketOf(AddIfNew(cache, i), category);
            if i.category == category && FindTriple(before, i.pattern, i.description).None? then after == before + [i]
            else after == before
    ensures category in AddIfNew(cache, i) <==> category in cache || category == i.category
  {
    if i.category == category && category !in cache {
      assert BucketOf(cache, category) == [];
    }
  }

  /** Some instinct of the bucket suggests the same for the same operations. */
  ghost predicate Suggested(bucket: Bucket, i: Instinct) {
    exists k :: 0 <= k < |bucket| && bucket[k].pattern == i.pattern && bucket[k].description == i.description
  }

  /** After an import every bucket has what it had, unchanged and in front, then only instincts of the batch as
      they came, and everything the batch suggests for its category; the touched categories are those that grew. */
  lemma {:induction false} ImportExact(cache: Cache, incoming: seq<Instinct>, category: string)
    ensures var r := ImportAll(cache, incoming);
            var before, after := BucketOf(cache, category), BucketOf(r.cache, category);
            && before <= after
            && (forall k | |before| <= k < |after| :: after[k] in incoming && after[k].category == category)
            && (forall i | i in incoming && i.category == category :: Suggested(after, i))
            && (category in r.touched <==> before != after)
  {
    if incoming != [] {
      var n := |incoming| - 1;
      var front, last := incoming[..n], incoming[n];
      assert incoming == front + [last];
      ImportExact(cache, front, category);
      ImportStep(cache, front, last, category);
      forall i | i in incoming && i.category == category
        ensures Suggested(BucketOf(ImportAll(cache, incoming).cache, category), i)
      {
        assert i in front || i == last;
      }
    }
  }

  lemma ImportStep(cache: Cache, front: seq<Instinct>, last: Instinct, category: string)
    ensures var earlier, r := ImportAll(cache, front), ImportAll(cache, front + [last]);
            var middle, after := BucketOf(earlier.cache, category), BucketOf(r.cache, category);
            && (after == middle || (after == middle + [last] && last.category == category))
            && (last.category == category ==> Suggested(after, last))
            && (forall i | Suggested(middle, i) :: Suggested(after, i))
            && (category in r.touched <==> category in earlier.touched || after != middle)
  {
    var earlier := ImportAll(cache, front);
    assert (front + [last])[..|front|] == front;
    AddIfNewExact(earlier.cache, last, category);
    var middle := BucketOf(earlier.cache, category);
    var after := BucketOf(ImportOne(earlier, last).cache, category);
    assert forall k | 0 <= k < |middle| :: after[k] == middle[k];
    if last.category == category && after != middle {
      assert after[|middle|] == last;
    }
  }

  function Plus(first: Imported, second: Imported): Imported {
    Imported(second.cache, first.added + second.added, first.merged + second.merged, first.touched + second.touched)
  }

  lemma ImportOnePlus(first: Imported, second: Imported, i: Instinct)
    ensures ImportOne(Plus(first, second), i) == Plus(first, ImportOne(second, i))
  {
    assert first.touched + (second.touched + {i.category}) == first.touched + second.touched + {i.category};
  }

  lemma {:induction false} ImportInRounds(cache: Cache, a: seq<Instinct>, b: seq<Instinct>)
    ensures ImportAll(cache, a + b) == Plus(ImportAll(cache, a), ImportAll(ImportAll(cache, a).cache, b))
    decreases |b|
  {
    if b == [] {
      assert a + b == a;
    } else {
      var n := |b| - 1;
      ImportInRounds(cache, a, b[..n]);
      JoinedLast(a, b);
      ImportOnePlus(ImportAll(cache, a), ImportAll(ImportAll(cache, a).cache, b[..n]), b[n]);
    }
  }

  /** The cache with the first n instincts of a bucket imported. */
  function WithPart(cache: Cache, category: string, bucket: Bucket, n: nat): Cache
    requires n <= |bucket|
  {
    if n == 0 then cache else cache[category := bucket[..n]]
  }

  lemma NextIsNew(cache: Cache, category: string, bucket: Bucket, n: nat)
    requires category !in cache && GoodBucket(category, bucket) && n < |bucket|
    ensures !Has(WithPart(cache, category, bucket, n), bucket[n])
    ensures AddIfNew(WithPart(cache, category, bucket, n), bucket[n]) == WithPart(cache, category, bucket, n + 1)
  {
    var known := BucketOf(WithPart(cache, category, bucket, n), category);
    assert known == bucket[..n];
    assert bucket[..n + 1] == known + [bucket[n]];
    var found := FindTriple(known, bucket[n].pattern, bucket[n].description);
    if found.Some? {
      assert SameTriple(bucket[found.value], bucket[n]);
    }
  }

  lemma {:induction false} ImportOfBucket(cache: Cache, category: string, bucket: Bucket, n: nat)
    requires category !in cache && GoodBucket(category, bucket) && n <= |bucket|
    ensures var r := ImportAll(cache, bucket[..n]);
            r.cache == WithPart(cache, category, bucket, n) && r.added == n && r.merged == 0
    decreases n
  {
    if n > 0 {
      ImportOfBucket(cache, category, bucket, n - 1);
      NextIsNew(cache, category, bucket, n - 1);
      assert bucket[..n][..n - 1] == bucket[..n - 1];
    }
  }

  function Restricted(cache: Cache, order: seq<string>): Cache {
    map category | category in cache && category in order :: cache[category]
  }

  /** Importing an export of a tidy store into an empty one restores it, in whatever order the
      categories were written out. */
  lemma {:induction false} ExportRestores(cache: Cache, order: seq<string>)
    requires Tidy(cache) && forall k | 0 <= k < |order| :: order[k] in cache
    requires forall j, k | 0 <= j < k < |order| :: order[j] != order[k]
    ensures ImportAll(map[], ExportAll(cache, order)).cache == Restricted(cache, order)
    ensures ImportAll(map[], ExportAll(cache, order)).merged == 0
  {
    if order == [] {
      assert Restricted(cache, order) == map[];
    } else {
      var n := |order| - 1;
      var front, last := order[..n], order[n];
      assert order == front + [last] && last !in front;
      ExportRestores(cache, front);
      OneMoreBucket(cache, front, last);
      assert ExportAll(cache, order) == ExportAll(cache, front) + cache[last];
    }
  }

  lemma OneMoreBucket(cache: Cache, front: seq<string>, last: string)
    requires Tidy(cache) && (forall k | 0 <= k < |front| :: front[k] in cache) && last in cache && last !in front
    requires ImportAll(map[], ExportAll(cache, front)).cache == Restricted(cache, front)
    ensures var r := ImportAll(map[], ExportAll(cache, front) + cache[last]);
            && r.cache == Restricted(cache, front + [last])
            && r.merged == ImportAll(map[], ExportAll(cache, front)).merged
  {
    ImportInRounds(map[], ExportAll(cache, front), cache[last]);
    var restored := Restricted(cache, front);
    assert last !in restored && GoodBucket(last, cache[last]);
    ImportOfWholeBucket(restored, last, cache[last]);
    RestrictedSnoc(cache, front, last);
  }

  lemma RestrictedSnoc(cache: Cache, front: seq<string>, last: string)
    requires (forall k | 0 <= k < |front| :: front[k] in cache) && last in cache
    ensures Restricted(cache, front + [last]) == Restricted(cache, front)[last := cache[last]]
  {
  }

  lemma ImportOfWholeBucket(cache: Cache, category: string, bucket: Bucket)
    requires category !in cache && GoodBucket(category, bucket)
    ensures ImportAll(cache, bucket).cache == cache[category := bucket] && ImportAll(cache, bucket).merged == 0
  {
    ImportOfBucket(cache, category, bucket, |bucket|);
    assert bucket[..|bucket|] == bucket;
  }
}
