/** The in-place sorter of src/proof/canonical.rs, on a tree of mutable nodes. */
module CanonicalTree {
  import opened Options
  import opened Ordering
  import opened CanonicalJson

  /** What a node holds; an object's keys and values are parallel. */
  datatype Shape =
    | Leaf(value: Json)
    | Items(items: seq<Node>)
    | Members(keys: seq<string>, values: seq<Node>)

  class Node {
    var shape: Shape
    ghost var Repr: set<Node>
    ghost var Model: Json

    constructor (ghost v: Json, shape: Shape, ghost space: set<Node>)
      ensures this.shape == shape && Model == v && Repr == space + {this}
    {
      this.shape := shape;
      Model := v;
      Repr := space + {this};
    }

    function Children(): seq<Node>
      reads this
    {
      match shape
      case Leaf(_) => []
      case Items(items) => items
      case Members(_, values) => values
    }

    /** A node is apart from its children, they are apart from each other, and `Model` is what it stands for. */
    ghost predicate Valid()
      reads this, Repr
      decreases Repr, 0
    {
      && this in Repr
      && Forest(Children(), Repr - {this})
      && Shown()
    }

    /** Valid trees that share nothing, all within one space. */
    static ghost predicate Forest(trees: seq<Node>, space: set<Node>)
      reads space
      decreases space, 1
    {
      && (forall c <- trees :: c in space && c.Repr <= space && c.Valid())
      && forall i, j | 0 <= i < j < |trees| :: trees[i].Repr !! trees[j].Repr
    }

    /** Choosing distinct trees of a forest, in any order, leaves a forest. */
    static lemma ForestChosen(trees: seq<Node>, space: set<Node>, chosen: seq<Node>, sorted: seq<Slot>)
      requires Forest(trees, space) && |chosen| == |sorted| && InRange(sorted, |trees|)
      requires forall i | 0 <= i < |sorted| :: chosen[i] == trees[sorted[i].index]
      requires forall i, j | 0 <= i < j < |sorted| :: sorted[i].index != sorted[j].index
      ensures Forest(chosen, space)
    {
      assert forall i | 0 <= i < |sorted| :: sorted[i] in sorted && chosen[i] in trees;
    }

    static lemma ForestGrows(trees: seq<Node>, space: set<Node>, tree: Node)
      requires Forest(trees, space) && tree.Valid() && space !! tree.Repr
      ensures Forest(trees + [tree], space + tree.Repr)
    {
    }

    static ghost predicate Shows(trees: seq<Node>, values: seq<Json>)
      reads trees
    {
      |trees| == |values| && forall k | 0 <= k < |trees| :: trees[k].Model == values[k]
    }

    ghost predicate Shown()
      reads this, Children()
    {
      match shape
      case Leaf(v) => Model == v && Scalar(v)
      case Items(items) =>
        && Model.Arr? && |Model.items| == |items|
        && forall i | 0 <= i < |items| :: Model.items[i] == items[i].Model
      case Members(keys, values) =>
        && Model.Obj? && |Model.entries| == |values| == |keys|
        && DistinctKeys(Self, keys)
        && forall i | 0 <= i < |keys| :: Model.entries[i] == Entry(keys[i], values[i].Model)
    }

    /** Sorts each tree of a forest where it is. */
    static method SortForest(trees: seq<Node>, ghost space: set<Node>)
      requires Forest(trees, space)
      modifies space
      ensures Forest(trees, space)
      ensures forall c <- trees :: c.Model == SortJson(old(c.Model))
      decreases space, 2
    {
      var i := 0;
      while i < |trees|
        invariant 0 <= i <= |trees|
        invariant Forest(trees, space)
        invariant forall k | 0 <= k < |trees| ::
                    trees[k].Model == if k < i then SortJson(old(trees[k].Model)) else old(trees[k].Model)
      {
        SortOne(trees, i, space);
        i := i + 1;
      }
    }

    /** Sorting one tree of a forest leaves the others alone. */
    static method SortOne(trees: seq<Node>, i: nat, ghost space: set<Node>)
      requires i < |trees| && Forest(trees, space)
      modifies space
      ensures Forest(trees, space)
      ensures trees[i].Model == SortJson(old(trees[i].Model))
      ensures forall k | 0 <= k < |trees| && k != i :: trees[k].Model == old(trees[k].Model)
      decreases space, 1
    {
      trees[i].Sort();
      assert forall k | 0 <= k < |trees| && k != i :: trees[k].Repr == old(trees[k].Repr);
    }

    /** The `sort_keys` of an object whose children are in order. */
    method SortKeys(ghost entries: seq<Entry>)
      requires this in Repr && Forest(Children(), Repr - {this})
      requires shape.Members? && |shape.keys| == |shape.values| == |entries| && DistinctKeys(Self, shape.keys)
      requires forall i | 0 <= i < |entries| :: entries[i] == Entry(shape.keys[i], shape.values[i].Model)
      modifies this`shape
      ensures shape.Members? && |shape.keys| == |shape.values| == |entries| && DistinctKeys(Self, shape.keys)
      ensures Forest(Children(), Repr - {this})
      ensures var r := SortBy(KeyOf, entries);
              forall i | 0 <= i < |r| :: r[i] == Entry(shape.keys[i], shape.values[i].Model)
      ensures forall i | 0 <= i < |shape.keys| - 1 :: Precedes(shape.keys[i], shape.keys[i + 1])
    {
      var keys, values := shape.keys, shape.values;
      var sorted := SortBy(SlotKey, SlotsOf(keys));
      ghost var models := seq(|values|, i requires 0 <= i < |values| reads values => values[i].Model);
      SortedSlots(keys);
      SortedEntries(keys, models, entries);
      var newKeys := seq(|sorted|, i requires 0 <= i < |sorted| => sorted[i].key);
      var newValues := seq(|sorted|, i requires 0 <= i < |sorted| => values[sorted[i].index]);
      ForestChosen(values, Repr - {this}, newValues, sorted);
      shape := Members(newKeys, newValues);
    }

    /** Rewrites the tree below this node into the canonical form of what it stood for. */
    method Sort()
      requires Valid()
      modifies Repr
      ensures Valid() && Repr == old(Repr)
      ensures Model == SortJson(old(Model))
      decreases Repr, 0
    {
      SortForest(Children(), Repr - {this});
      if shape.Members? {
        SortKeys(SortValues(Model.entries));
      }
      Model := SortJson(Model);
    }
  }

  predicate Scalar(v: Json) {
    !v.Arr? && !v.Obj?
  }

  function Parts(v: Json): (parts: seq<Json>)
    ensures forall p <- parts :: p < v
  {
    match v
    case Arr(items) => items
    case Obj(entries) => seq(|entries|, i requires 0 <= i < |entries| => entries[i].value)
    case _ => []
  }

  function KeysOf(entries: seq<Entry>): (keys: seq<string>)
    ensures |keys| == |entries|
    ensures forall i | 0 <= i < |keys| :: keys[i] == entries[i].key
  {
    seq(|entries|, i requires 0 <= i < |entries| => entries[i].key)
  }

  /** A node over trees that stand for the parts of a value. */
  method Joined(v: Json, trees: seq<Node>, ghost space: set<Node>) returns (n: Node)
    requires WellFormed(v) && Node.Forest(trees, space) && Node.Shows(trees, Parts(v))
    ensures n.Valid() && n.Model == v && fresh(n) && n.Repr == space + {n}
  {
    match v {
      case Arr(_) => n := new Node(v, Items(trees), space);
      case Obj(entries) =>
        KeysDistinct(entries);
        n := new Node(v, Members(KeysOf(entries), trees), space);
      case _ => n := new Node(v, Leaf(v), space);
    }
    assert n.Repr - {n} == space;
  }

  /** Builds the trees of the parts of a value. */
  method BuildParts(v: Json) returns (trees: seq<Node>, ghost space: set<Node>)
    requires WellFormed(v)
    ensures fresh(space) && Node.Forest(trees, space) && Node.Shows(trees, Parts(v))
    decreases v, 0
  {
    var parts := Parts(v);
    PartsWellFormed(v);
    trees, space := [], {};
    var i := 0;
    while i < |parts|
      invariant 0 <= i <= |parts|
      invariant fresh(space) && Node.Forest(trees, space) && Node.Shows(trees, parts[..i])
    {
      assert parts[i] in parts;
      assert parts[..i + 1] == parts[..i] + [parts[i]];
      trees, space := BuildOneMore(parts[i], trees, space, parts[..i]);
      i := i + 1;
    }
    assert parts[..i] == parts;
  }

  method BuildOneMore(v: Json, trees: seq<Node>, ghost space: set<Node>, ghost shown: seq<Json>)
    returns (more: seq<Node>, ghost wider: set<Node>)
    requires WellFormed(v) && Node.Forest(trees, space) && Node.Shows(trees, shown)
    ensures Node.Forest(more, wider) && Node.Shows(more, shown + [v])
    ensures space <= wider && fresh(wider - space)
    decreases v, 2
  {
    var child := Build(v);
    Node.ForestGrows(trees, space, child);
    more := trees + [child];
    wider := space + child.Repr;
  }

  /** Builds the tree of a value, as `to_value` does. */
  method Build(v: Json) returns (n: Node)
    requires WellFormed(v)
    ensures n.Valid() && n.Model == v && fresh(n.Repr)
    decreases v, 1
  {
    var trees, space := BuildParts(v);
    n := Joined(v, trees, space);
  }

  lemma PartsWellFormed(v: Json)
    requires WellFormed(v)
    ensures forall p <- Parts(v) :: WellFormed(p)
  {
    if v.Obj? {
      assert forall i | 0 <= i < |v.entries| :: v.entries[i] in v.entries;
    }
  }

  lemma KeysDistinct(entries: seq<Entry>)
    requires DistinctKeys(KeyOf, entries)
    ensures DistinctKeys(Self, KeysOf(entries))
  {
    assert forall i | 0 <= i < |entries| :: Self(KeysOf(entries)[i]) == KeyOf(entries[i]);
  }

  /** The value a tree stands for, as a serializer reads it. */
  method ReadBack(n: Node) returns (v: Json)
    requires n.Valid()
    ensures v == n.Model
    decreases n.Repr
  {
    var trees := n.Children();
    var values: seq<Json> := [];
    var i := 0;
    while i < |trees|
      invariant 0 <= i == |values| <= |trees|
      invariant forall k | 0 <= k < i :: values[k] == trees[k].Model
    {
      assert trees[i] in trees;
      var value := ReadBack(trees[i]);
      values := values + [value];
      i := i + 1;
    }
    match n.shape {
      case Leaf(scalar) => v := scalar;
      case Items(_) => v := Arr(values);
      case Members(keys, _) =>
        v := Obj(seq(|keys|, j requires 0 <= j < |keys| => Entry(keys[j], values[j])));
    }
  }

  /** The signature is cleared on a copy, which becomes a tree, is sorted in place, and is serialized. */
  method CanonicalBytesInPlace<B>(serialize: Json -> B, capsule: Capsule) returns (bytes: B)
    requires WellFormed(ToValue(capsule.(signature := None)))
    ensures bytes == CanonicalBytes(serialize, capsule)
    ensures exists w :: bytes == serialize(w) && KeysInOrder(w) &&
                        Same(Obj(capsule.fields + [Entry("signature", Null)]), w)
  {
    var unsigned := capsule.(signature := None);
    var tree := Build(ToValue(unsigned));
    tree.Sort();
    var value := ReadBack(tree);
    bytes := serialize(value);
    OrderedIsCanonical(ToValue(unsigned), value);
  }

  /** A key and where its value was. */
  datatype Slot = Slot(key: string, index: nat)

  function SlotKey(s: Slot): string {
    s.key
  }

  function SlotsOf(keys: seq<string>): (slots: seq<Slot>)
    ensures |slots| == |keys|
    ensures forall i | 0 <= i < |keys| :: slots[i] == Slot(keys[i], i)
  {
    seq(|keys|, i requires 0 <= i < |keys| => Slot(keys[i], i))
  }

  predicate InRange(slots: seq<Slot>, n: nat) {
    forall s <- slots :: s.index < n
  }

  /** Sorting slots keeps each key with its value, and no value appears twice. */
  lemma SortedSlots(keys: seq<string>)
    requires DistinctKeys(Self, keys)
    ensures var sorted := SortBy(SlotKey, SlotsOf(keys));
            && |sorted| == |keys|
            && (forall s <- sorted :: s.index < |keys| && s.key == keys[s.index])
            && (forall i, j | 0 <= i < j < |sorted| ::
                  sorted[i].index != sorted[j].index && sorted[i].key != sorted[j].key)
            && (forall i | 0 <= i < |sorted| - 1 :: Precedes(sorted[i].key, sorted[i + 1].key))
  {
    var slots := SlotsOf(keys);
    assert forall i, j | 0 <= i < j < |slots| :: SlotKey(slots[i]) != SlotKey(slots[j]) by {
      assert forall i | 0 <= i < |keys| :: SlotKey(slots[i]) == Self(keys[i]);
    }
    SortBySorts(SlotKey, slots);
    var sorted := SortBy(SlotKey, slots);
    forall s | s in sorted
      ensures s.index < |keys| && s.key == keys[s.index]
    {
      assert s in slots;
    }
    forall i, j | 0 <= i < j < |sorted|
      ensures sorted[i].index != sorted[j].index && sorted[i].key != sorted[j].key
    {
      assert Less(SlotKey(sorted[i]), SlotKey(sorted[j]));
      LessIrreflexive(SlotKey(sorted[i]));
    }
    forall i | 0 <= i < |sorted| - 1
      ensures Precedes(sorted[i].key, sorted[i + 1].key)
    {
      assert Less(SlotKey(sorted[i]), SlotKey(sorted[i + 1]));
      LessExact(sorted[i].key, sorted[i + 1].key);
    }
  }

  function Fill(s: Slot, models: seq<Json>): Entry
    requires s.index < |models|
  {
    Entry(s.key, models[s.index])
  }

  function FillAll(slots: seq<Slot>, models: seq<Json>): (entries: seq<Entry>)
    requires InRange(slots, |models|)
    ensures |entries| == |slots|
  {
    seq(|slots|, i requires 0 <= i < |slots| => Fill(slots[i], models))
  }

  lemma {:induction false} InsertNatural(x: Slot, sorted: seq<Slot>, models: seq<Json>)
    requires x.index < |models| && InRange(sorted, |models|)
    ensures InRange(InsertBy(SlotKey, x, sorted), |models|)
    ensures FillAll(InsertBy(SlotKey, x, sorted), models) == InsertBy(KeyOf, Fill(x, models), FillAll(sorted, models))
    decreases |sorted|
  {
    if sorted != [] {
      InsertNatural(x, sorted[1..], models);
      assert FillAll(sorted, models)[1..] == FillAll(sorted[1..], models);
    }
  }

  /** Sorting the slots and then filling them is filling them and then sorting the entries. */
  lemma {:induction false} SortNatural(slots: seq<Slot>, models: seq<Json>)
    requires InRange(slots, |models|)
    ensures InRange(SortBy(SlotKey, slots), |models|)
    ensures FillAll(SortBy(SlotKey, slots), models) == SortBy(KeyOf, FillAll(slots, models))
    decreases |slots|
  {
    if slots != [] {
      SortNatural(slots[1..], models);
      assert FillAll(slots, models)[1..] == FillAll(slots[1..], models);
      InsertNatural(slots[0], SortBy(SlotKey, slots[1..]), models);
    }
  }

  /** The slots in order say which entries are in order. */
  lemma SortedEntries(keys: seq<string>, models: seq<Json>, entries: seq<Entry>)
    requires |keys| == |models| == |entries|
    requires forall i | 0 <= i < |keys| :: entries[i] == Entry(keys[i], models[i])
    ensures var sorted, r := SortBy(SlotKey, SlotsOf(keys)), SortBy(KeyOf, entries);
            && |sorted| == |r| && InRange(sorted, |models|)
            && forall i | 0 <= i < |r| :: r[i] == Fill(sorted[i], models)
  {
    SortNatural(SlotsOf(keys), models);
    assert FillAll(SlotsOf(keys), models) == entries;
  }
}
