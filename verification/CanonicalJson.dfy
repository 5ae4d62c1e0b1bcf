/** Canonical JSON: object keys sorted at every depth.

    The byte serializer is a parameter. */
module CanonicalJson {
  import opened Options
  import opened Ordering

  datatype Json =
    | Null
    | Bool(b: bool)
    | Number(text: string)
    | Str(s: string)
    | Arr(items: seq<Json>)
    | Obj(entries: seq<Entry>)

  /** Entries keep their order, as in an insertion-ordered map. */
  datatype Entry = Entry(key: string, value: Json)

  function KeyOf(e: Entry): string {
    e.key
  }

  /** Object keys are unique, at every depth. */
  ghost predicate WellFormed(v: Json) {
    match v
    case Arr(items) => forall i | 0 <= i < |items| :: WellFormed(items[i])
    case Obj(entries) =>
      DistinctKeys(KeyOf, entries) && forall e | e in entries :: WellFormed(e.value)
    case _ => true
  }

  function SortJson(v: Json): Json {
    match v
    case Arr(items) => Arr(SortItems(items))
    case Obj(entries) => Obj(SortBy(KeyOf, SortValues(entries)))
    case _ => v
  }

  function SortItems(items: seq<Json>): (r: seq<Json>)
    ensures |r| == |items|
    ensures forall i | 0 <= i < |r| :: r[i] == SortJson(items[i])
  {
    seq(|items|, i requires 0 <= i < |items| => SortJson(items[i]))
  }

  function SortValues(entries: seq<Entry>): (r: seq<Entry>)
    ensures |r| == |entries|
    ensures forall i | 0 <= i < |r| :: r[i] == Entry(entries[i].key, SortJson(entries[i].value))
  {
    seq(|entries|, i requires 0 <= i < |entries| => Entry(entries[i].key, SortJson(entries[i].value)))
  }

  function SortedEntry(e: Entry): Entry {
    Entry(e.key, SortJson(e.value))
  }

  /** Two values that differ at most in the order of object keys, at any depth. */
  ghost predicate Same(a: Json, b: Json)
    decreases a, 1
  {
    match a
    case Arr(items) => b.Arr? && |b.items| == |items| && forall i | 0 <= i < |items| :: Same(items[i], b.items[i])
    case Obj(_) => b.Obj? && SameObject(a, b)
    case _ => a == b
  }

  /** Every entry has its match on the other side, and there are no other keys. */
  ghost predicate SameObject(a: Json, b: Json)
    requires a.Obj? && b.Obj?
    decreases a, 0
  {
    && (forall e | e in a.entries :: exists f :: f in b.entries && Match(e, f))
    && (forall f | f in b.entries :: HasKey(a.entries, f.key))
  }

  ghost predicate Match(e: Entry, f: Entry)
    decreases e, 2
  {
    e.key == f.key && Same(e.value, f.value)
  }

  predicate HasKey(entries: seq<Entry>, key: string) {
    exists e | e in entries :: e.key == key
  }

  lemma SortValuesMembers(entries: seq<Entry>, sorted: Entry)
    ensures sorted in SortValues(entries) <==> exists e :: e in entries && SortedEntry(e) == sorted
  {
    if sorted in SortValues(entries) {
      var i :| 0 <= i < |entries| && SortValues(entries)[i] == sorted;
      assert entries[i] in entries && SortedEntry(entries[i]) == sorted;
    }
    if e :| e in entries && SortedEntry(e) == sorted {
      var i :| 0 <= i < |entries| && entries[i] == e;
      assert SortValues(entries)[i] == sorted;
    }
  }

  lemma OneEntryPerKey(entries: seq<Entry>, e: Entry, f: Entry)
    requires DistinctKeys(KeyOf, entries) && e in entries && f in entries && e.key == f.key
    ensures e == f
  {
    var i :| 0 <= i < |entries| && entries[i] == e;
    var j :| 0 <= j < |entries| && entries[j] == f;
    assert KeyOf(entries[i]) == KeyOf(entries[j]);
    assert i == j;
  }

  lemma SortedValuesDistinct(entries: seq<Entry>)
    requires DistinctKeys(KeyOf, entries)
    ensures DistinctKeys(KeyOf, SortValues(entries))
    ensures StrictlySorted(KeyOf, SortBy(KeyOf, SortValues(entries)))
  {
    forall i, j | 0 <= i < j < |entries|
      ensures KeyOf(SortValues(entries)[i]) != KeyOf(SortValues(entries)[j])
    {
      assert KeyOf(entries[i]) != KeyOf(entries[j]);
    }
    SortBySorts(KeyOf, SortValues(entries));
  }

  ghost predicate HasAlike(entries: seq<Entry>, e: Entry) {
    exists f :: f in entries && SortedEntry(f) == SortedEntry(e)
  }

  lemma AlikeMembers(xs: seq<Entry>, ys: seq<Entry>, sorted: Entry)
    requires DistinctKeys(KeyOf, ys)
    requires forall e | e in xs :: HasAlike(ys, e)
    requires forall f | f in ys :: HasKey(xs, f.key)
    ensures sorted in SortValues(xs) <==> sorted in SortValues(ys)
  {
    SortValuesMembers(xs, sorted);
    SortValuesMembers(ys, sorted);
    if sorted in SortValues(xs) {
      var e :| e in xs && SortedEntry(e) == sorted;
      assert HasAlike(ys, e);
    }
    if sorted in SortValues(ys) {
      var f :| f in ys && SortedEntry(f) == sorted;
      var e :| e in xs && e.key == f.key;
      var g :| g in ys && SortedEntry(g) == SortedEntry(e);
      OneEntryPerKey(ys, f, g);
    }
  }

  /** Entries that are alike one to one sort to the same list. */
  lemma AlikeEntriesSortAlike(xs: seq<Entry>, ys: seq<Entry>)
    requires DistinctKeys(KeyOf, xs) && DistinctKeys(KeyOf, ys)
    requires forall e | e in xs :: HasAlike(ys, e)
    requires forall f | f in ys :: HasKey(xs, f.key)
    ensures SortBy(KeyOf, SortValues(xs)) == SortBy(KeyOf, SortValues(ys))
  {
    forall sorted
      ensures sorted in SortBy(KeyOf, SortValues(xs)) <==> sorted in SortBy(KeyOf, SortValues(ys))
    {
      AlikeMembers(xs, ys, sorted);
    }
    SortedValuesDistinct(xs);
    SortedValuesDistinct(ys);
    SortedUnique(KeyOf, SortBy(KeyOf, SortValues(xs)), SortBy(KeyOf, SortValues(ys)));
  }

  /** Values that differ only in key order have one canonical form. */
  lemma {:induction false} SameSortsAlike(a: Json, b: Json)
    requires WellFormed(a) && WellFormed(b) && Same(a, b)
    ensures SortJson(a) == SortJson(b)
    decreases a
  {
    match a
    case Arr(items) =>
      forall i | 0 <= i < |items|
        ensures SortJson(items[i]) == SortJson(b.items[i])
      {
        SameSortsAlike(items[i], b.items[i]);
      }
      assert SortItems(items) == SortItems(b.items);
    case Obj(entries) =>
      forall e | e in entries
        ensures HasAlike(b.entries, e)
      {
        var f :| f in b.entries && Match(e, f);
        SameSortsAlike(e.value, f.value);
        assert SortedEntry(f) == SortedEntry(e);
      }
      AlikeEntriesSortAlike(entries, b.entries);
    case _ =>
  }

  /** Values with one canonical form differ only in key order. */
  lemma {:induction false} AlikeIsSame(a: Json, b: Json)
    requires SortJson(a) == SortJson(b)
    ensures Same(a, b)
    decreases a
  {
    match a
    case Arr(items) =>
      forall i | 0 <= i < |items|
        ensures Same(items[i], b.items[i])
      {
        assert SortItems(items)[i] == SortItems(b.items)[i];
        AlikeIsSame(items[i], b.items[i]);
      }
    case Obj(entries) =>
      SortedAlikeMembers(entries, b.entries);
      forall e | e in entries
        ensures exists f :: f in b.entries && Match(e, f)
      {
        var f :| f in b.entries && SortedEntry(f) == SortedEntry(e);
        AlikeIsSame(e.value, f.value);
        assert Match(e, f);
      }
    case _ =>
  }

  lemma SortedAlikeMembers(xs: seq<Entry>, ys: seq<Entry>)
    requires SortBy(KeyOf, SortValues(xs)) == SortBy(KeyOf, SortValues(ys))
    ensures forall e | e in xs :: exists f :: f in ys && SortedEntry(f) == SortedEntry(e)
    ensures forall f | f in ys :: HasKey(xs, f.key)
  {
    forall e | e in xs
      ensures exists f :: f in ys && SortedEntry(f) == SortedEntry(e)
    {
      SortValuesMembers(xs, SortedEntry(e));
      SortValuesMembers(ys, SortedEntry(e));
      assert SortedEntry(e) in SortBy(KeyOf, SortValues(xs));
    }
    forall f | f in ys
      ensures HasKey(xs, f.key)
    {
      SortValuesMembers(xs, SortedEntry(f));
      SortValuesMembers(ys, SortedEntry(f));
      assert SortedEntry(f) in SortBy(KeyOf, SortValues(ys));
      var e :| e in xs && SortedEntry(e) == SortedEntry(f);
      assert e.key == f.key;
    }
  }

  /** Two well-formed values have the same canonical form exactly when they differ only in the order
      of object keys. */
  lemma CanonicalFormExact(a: Json, b: Json)
    requires WellFormed(a) && WellFormed(b)
    ensures SortJson(a) == SortJson(b) <==> Same(a, b)
  {
    if Same(a, b) {
      SameSortsAlike(a, b);
    } else if SortJson(a) == SortJson(b) {
      AlikeIsSame(a, b);
    }
  }

  lemma {:induction false} SortKeepsWellFormed(v: Json)
    requires WellFormed(v)
    ensures WellFormed(SortJson(v))
  {
    match v
    case Arr(items) =>
      forall i | 0 <= i < |items|
        ensures WellFormed(SortItems(items)[i])
      {
        SortKeepsWellFormed(items[i]);
      }
    case Obj(entries) =>
      SortedValuesDistinct(entries);
      var sorted := SortBy(KeyOf, SortValues(entries));
      forall f | f in sorted
        ensures WellFormed(f.value)
      {
        SortValuesMembers(entries, f);
        var e :| e in entries && SortedEntry(e) == f;
        SortKeepsWellFormed(e.value);
      }
      forall i, j | 0 <= i < j < |sorted|
        ensures KeyOf(sorted[i]) != KeyOf(sorted[j])
      {
        assert Less(KeyOf(sorted[i]), KeyOf(sorted[j]));
        LessIrreflexive(KeyOf(sorted[i]));
      }
    case _ =>
  }

  /** In every object, at any depth, each key precedes the next. */
  ghost predicate KeysInOrder(v: Json) {
    match v
    case Arr(items) => forall i | 0 <= i < |items| :: KeysInOrder(items[i])
    case Obj(entries) =>
      && (forall i | 0 <= i < |entries| - 1 :: Precedes(entries[i].key, entries[i + 1].key))
      && forall e | e in entries :: KeysInOrder(e.value)
    case _ => true
  }

  /** A canonical form has its keys in the order of their characters, at every depth. */
  lemma {:induction false} SortedKeysInOrder(v: Json)
    requires WellFormed(v)
    ensures KeysInOrder(SortJson(v))
  {
    match v
    case Arr(items) =>
      forall i | 0 <= i < |items|
        ensures KeysInOrder(SortItems(items)[i])
      {
        SortedKeysInOrder(items[i]);
      }
    case Obj(entries) =>
      SortedValuesDistinct(entries);
      var sorted := SortBy(KeyOf, SortValues(entries));
      forall i | 0 <= i < |sorted| - 1
        ensures Precedes(sorted[i].key, sorted[i + 1].key)
      {
        assert Less(KeyOf(sorted[i]), KeyOf(sorted[i + 1]));
        LessExact(sorted[i].key, sorted[i + 1].key);
      }
      forall f | f in sorted
        ensures KeysInOrder(f.value)
      {
        SortValuesMembers(entries, f);
        var e :| e in entries && SortedEntry(e) == f;
        SortedKeysInOrder(e.value);
      }
    case _ =>
  }

  /** A canonical form is the value itself up to key order. */
  lemma {:induction false} SortedIsSame(v: Json)
    requires WellFormed(v)
    ensures Same(v, SortJson(v))
  {
    match v
    case Arr(items) =>
      forall i | 0 <= i < |items|
        ensures Same(items[i], SortItems(items)[i])
      {
        SortedIsSame(items[i]);
      }
    case Obj(entries) =>
      var sorted := SortBy(KeyOf, SortValues(entries));
      forall e | e in entries
        ensures exists f :: f in sorted && Match(e, f)
      {
        SortValuesMembers(entries, SortedEntry(e));
        SortedIsSame(e.value);
        assert SortedEntry(e) in sorted && Match(e, SortedEntry(e));
      }
      forall f | f in sorted
        ensures HasKey(entries, f.key)
      {
        SortValuesMembers(entries, f);
      }
    case _ =>
  }

  /** Sorting a second time changes nothing. */
  lemma SortIdempotent(v: Json)
    requires WellFormed(v)
    ensures SortJson(SortJson(v)) == SortJson(v)
  {
    SortedIsSame(v);
    SortKeepsWellFormed(v);
    SameSortsAlike(v, SortJson(v));
  }

  lemma {:induction false} OrderedIsSorted(entries: seq<Entry>, i: nat, j: nat)
    requires forall k | 0 <= k < |entries| - 1 :: Precedes(entries[k].key, entries[k + 1].key)
    requires i < j < |entries|
    ensures Less(KeyOf(entries[i]), KeyOf(entries[j]))
    decreases j
  {
    LessExact(entries[j - 1].key, entries[j].key);
    if i < j - 1 {
      OrderedIsSorted(entries, i, j - 1);
      LessTransitive(entries[i].key, entries[j - 1].key, entries[j].key);
    }
  }

  /** Sorting leaves a value alone whose keys are in order. */
  lemma {:induction false} OrderedStays(v: Json)
    requires WellFormed(v) && KeysInOrder(v)
    ensures SortJson(v) == v
  {
    match v
    case Arr(items) =>
      forall i | 0 <= i < |items|
        ensures SortItems(items)[i] == items[i]
      {
        OrderedStays(items[i]);
      }
      assert SortItems(items) == items;
    case Obj(entries) =>
      forall i | 0 <= i < |entries|
        ensures SortValues(entries)[i] == entries[i]
      {
        assert entries[i] in entries;
        OrderedStays(entries[i].value);
      }
      assert SortValues(entries) == entries;
      forall i, j | 0 <= i < j < |entries|
        ensures Less(KeyOf(entries[i]), KeyOf(entries[j]))
      {
        OrderedIsSorted(entries, i, j);
      }
      SortedValuesDistinct(entries);
      SortedUnique(KeyOf, SortBy(KeyOf, entries), entries);
    case _ =>
  }

  /** The canonical form is the one way to write a value, up to the order of its keys, with the keys in order. */
  lemma OrderedIsCanonical(v: Json, w: Json)
    requires WellFormed(v)
    ensures w == SortJson(v) <==> WellFormed(w) && Same(v, w) && KeysInOrder(w)
  {
    if w == SortJson(v) {
      SortedIsSame(v);
      SortKeepsWellFormed(v);
      SortedKeysInOrder(v);
    }
    if WellFormed(w) && Same(v, w) && KeysInOrder(w) {
      SameSortsAlike(v, w);
      OrderedStays(w);
    }
  }

  // ---------------------------------------------------------------------------------------------
  // Lookups

  datatype PathStep = Key(key: string) | Index(index: nat)

  function Find(entries: seq<Entry>, key: string): Option<Json> {
    if entries == [] then None
    else if entries[0].key == key then Some(entries[0].value)
    else Find(entries[1..], key)
  }

  function Child(v: Json, step: PathStep): Option<Json> {
    match step
    case Key(key) => if v.Obj? then Find(v.entries, key) else None
    case Index(index) => if v.Arr? && index < |v.items| then Some(v.items[index]) else None
  }

  function Lookup(v: Json, path: seq<PathStep>): Option<Json>
    decreases |path|
  {
    if path == [] then Some(v)
    else
      match Child(v, path[0])
      case None => None
      case Some(child) => Lookup(child, path[1..])
  }

  lemma {:induction false} FindExact(entries: seq<Entry>, key: string, i: nat)
    requires DistinctKeys(KeyOf, entries) && i < |entries| && entries[i].key == key
    ensures Find(entries, key) == Some(entries[i].value)
  {
    if i > 0 {
      assert KeyOf(entries[0]) != KeyOf(entries[i]);
      forall j, k | 0 <= j < k < |entries[1..]|
        ensures KeyOf(entries[1..][j]) != KeyOf(entries[1..][k])
      {
        assert KeyOf(entries[j + 1]) != KeyOf(entries[k + 1]);
      }
      FindExact(entries[1..], key, i - 1);
    }
  }

  lemma {:induction false} FindNone(entries: seq<Entry>, key: string)
    requires forall i | 0 <= i < |entries| :: entries[i].key != key
    ensures Find(entries, key) == None
  {
    if entries != [] {
      FindNone(entries[1..], key);
    }
  }

  lemma FindMember(entries: seq<Entry>, e: Entry)
    requires DistinctKeys(KeyOf, entries) && e in entries
    ensures Find(entries, e.key) == Some(e.value)
  {
    var i :| 0 <= i < |entries| && entries[i] == e;
    FindExact(entries, e.key, i);
  }

  ghost predicate SameChildren(x: Option<Json>, y: Option<Json>) {
    && (x.Some? <==> y.Some?)
    && (x.Some? ==> WellFormed(x.value) && WellFormed(y.value) && Same(x.value, y.value))
  }

  lemma FindMatch(xs: seq<Entry>, ys: seq<Entry>, e: Entry, f: Entry)
    requires DistinctKeys(KeyOf, xs) && DistinctKeys(KeyOf, ys) && e in xs && f in ys && Match(e, f)
    requires WellFormed(e.value) && WellFormed(f.value)
    ensures SameChildren(Find(xs, e.key), Find(ys, e.key))
  {
    FindMember(xs, e);
    FindMember(ys, f);
  }

  lemma FindAbsent(xs: seq<Entry>, ys: seq<Entry>, key: string)
    requires !HasKey(xs, key) && forall f | f in ys :: HasKey(xs, f.key)
    ensures SameChildren(Find(xs, key), Find(ys, key))
  {
    FindNone(xs, key);
    FindNone(ys, key);
  }

  lemma FindSame(a: Json, b: Json, key: string)
    requires a.Obj? && b.Obj? && SameObject(a, b) && WellFormed(a) && WellFormed(b)
    ensures SameChildren(Find(a.entries, key), Find(b.entries, key))
  {
    if HasKey(a.entries, key) {
      var e :| e in a.entries && e.key == key;
      var f :| f in b.entries && Match(e, f);
      FindMatch(a.entries, b.entries, e, f);
    } else {
      FindAbsent(a.entries, b.entries, key);
    }
  }

  lemma ChildSame(a: Json, b: Json, step: PathStep)
    requires WellFormed(a) && WellFormed(b) && Same(a, b)
    ensures SameChildren(Child(a, step), Child(b, step))
  {
    match step
    case Key(key) =>
      if a.Obj? {
        FindSame(a, b, key);
      }
    case Index(index) =>
      if a.Arr? && index < |a.items| {
        assert WellFormed(a.items[index]) && WellFormed(b.items[index]);
      }
  }

  /** Sorting preserves every lookup, along every path. */
  lemma {:induction false} LookupSame(a: Json, b: Json, path: seq<PathStep>)
    requires WellFormed(a) && WellFormed(b) && Same(a, b)
    ensures Lookup(a, path).Some? <==> Lookup(b, path).Some?
    ensures Lookup(a, path).Some? ==> Same(Lookup(a, path).value, Lookup(b, path).value)
    decreases |path|
  {
    if path != [] {
      ChildSame(a, b, path[0]);
      if Child(a, path[0]).Some? {
        LookupSame(Child(a, path[0]).value, Child(b, path[0]).value, path[1..]);
      }
    }
  }

  // ---------------------------------------------------------------------------------------------
  // Canonical bytes of a capsule

  /** A capsule: its signature, and its other fields as they serialize. */
  datatype Capsule = Capsule(fields: seq<Entry>, signature: Option<Json>)

  function ToValue(c: Capsule): Json {
    Obj(c.fields + [Entry("signature", if c.signature.Some? then c.signature.value else Null)])
  }

  function CanonicalBytes<B>(serialize: Json -> B, c: Capsule): B {
    serialize(SortJson(ToValue(c.(signature := None))))
  }

  /** The canonical bytes of a capsule are those of its fields and a null signature, written with every key
      before the next. */
  lemma CanonicalBytesOrdered<B>(serialize: Json -> B, c: Capsule) returns (w: Json)
    requires WellFormed(Obj(c.fields + [Entry("signature", Null)]))
    ensures CanonicalBytes(serialize, c) == serialize(w)
    ensures Same(Obj(c.fields + [Entry("signature", Null)]), w) && KeysInOrder(w)
  {
    w := SortJson(Obj(c.fields + [Entry("signature", Null)]));
    OrderedIsCanonical(Obj(c.fields + [Entry("signature", Null)]), w);
  }

  /** With a serializer that does not confuse values, two capsules have the same canonical bytes
      exactly when they agree up to key order on everything but the signature. */
  lemma CanonicalBytesExact<B>(serialize: Json -> B, c: Capsule, d: Capsule)
    requires forall a, b | serialize(a) == serialize(b) :: a == b
    requires WellFormed(ToValue(c.(signature := None))) && WellFormed(ToValue(d.(signature := None)))
    ensures CanonicalBytes(serialize, c) == CanonicalBytes(serialize, d) <==>
            Same(ToValue(c.(signature := None)), ToValue(d.(signature := None)))
  {
    CanonicalFormExact(ToValue(c.(signature := None)), ToValue(d.(signature := None)));
  }
}
