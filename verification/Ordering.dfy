/** The lexicographic order on strings, sorting by a string key, and binary search. */
module Ordering {

  predicate Less(a: string, b: string) {
    b != "" && (a == "" || a[0] < b[0] || (a[0] == b[0] && Less(a[1..], b[1..])))
  }

  lemma {:induction false} LessIrreflexive(a: string)
    ensures !Less(a, a)
  {
    if a != "" {
      LessIrreflexive(a[1..]);
    }
  }

  lemma {:induction false} LessTransitive(a: string, b: string, c: string)
    requires Less(a, b) && Less(b, c)
    ensures Less(a, c)
    decreases |b|
  {
    if a != "" && a[0] == b[0] == c[0] {
      LessTransitive(a[1..], b[1..], c[1..]);
    }
  }

  lemma {:induction false} LessTotal(a: string, b: string)
    requires a != b
    ensures Less(a, b) || Less(b, a)
    decreases |a|
  {
    if a != "" && b != "" && a[0] == b[0] {
      assert a == [a[0]] + a[1..] && b == [b[0]] + b[1..];
      LessTotal(a[1..], b[1..]);
    }
  }

  /** After `k` characters that both begin with, the first string ends or has the smaller character. */
  predicate PartsAt(a: string, b: string, k: nat) {
    k <= |a| && k < |b| && a[..k] == b[..k] && (k == |a| || a[k] < b[k])
  }

  /** The order of strings by their characters, a string before its continuations. */
  ghost predicate Precedes(a: string, b: string) {
    exists k: nat :: PartsAt(a, b, k)
  }

  lemma PartsLater(a: string, b: string, k: nat)
    requires a != "" && b != "" && a[0] == b[0]
    ensures PartsAt(a, b, k + 1) <==> PartsAt(a[1..], b[1..], k)
  {
    if k < |a| && k < |b| {
      var x, y := a[1..], b[1..];
      assert a[..k + 1] == [a[0]] + x[..k] && b[..k + 1] == [b[0]] + y[..k];
      assert a[..k + 1][1..] == x[..k] && b[..k + 1][1..] == y[..k];
    }
  }

  /** The comparison that sorting uses is that order. */
  lemma {:induction false} LessExact(a: string, b: string)
    ensures Less(a, b) <==> Precedes(a, b)
  {
    if Precedes(a, b) {
      var k: nat :| PartsAt(a, b, k);
      if k > 0 {
        assert a[0] == a[..k][0] == b[..k][0] == b[0];
        PartsLater(a, b, k - 1);
        LessExact(a[1..], b[1..]);
      }
    }
    if Less(a, b) {
      if a != "" && a[0] == b[0] {
        LessExact(a[1..], b[1..]);
        var k: nat :| PartsAt(a[1..], b[1..], k);
        PartsLater(a, b, k);
      } else {
        assert a[..0] == b[..0];
        assert PartsAt(a, b, 0);
      }
    }
  }

  type Key<!T> = T -> string

  ghost predicate StrictlySorted<T(!new)>(key: Key<T>, xs: seq<T>) {
    forall i, j | 0 <= i < j < |xs| :: Less(key(xs[i]), key(xs[j]))
  }

  ghost predicate DistinctKeys<T(!new)>(key: Key<T>, xs: seq<T>) {
    forall i, j | 0 <= i < j < |xs| :: key(xs[i]) != key(xs[j])
  }

  function InsertBy<T(!new)>(key: Key<T>, x: T, sorted: seq<T>): (r: seq<T>)
    ensures |r| == |sorted| + 1
    ensures forall y :: y in r <==> y == x || y in sorted
  {
    if sorted == [] then [x]
    else if Less(key(x), key(sorted[0])) then [x] + sorted
    else [sorted[0]] + InsertBy(key, x, sorted[1..])
  }

  function SortBy<T(!new)>(key: Key<T>, xs: seq<T>): (r: seq<T>)
    ensures |r| == |xs|
    ensures forall y :: y in r <==> y in xs
  {
    if xs == [] then []
    else
      assert forall y :: y in xs <==> y == xs[0] || y in xs[1..];
      InsertBy(key, xs[0], SortBy(key, xs[1..]))
  }

  lemma {:induction false} InsertKeepsSorted<T(!new)>(key: Key<T>, x: T, sorted: seq<T>)
    requires StrictlySorted(key, sorted) && forall y | y in sorted :: key(y) != key(x)
    ensures StrictlySorted(key, InsertBy(key, x, sorted))
  {
    if sorted != [] {
      var r := InsertBy(key, x, sorted);
      if Less(key(x), key(sorted[0])) {
        forall j | 1 <= j < |r|
          ensures Less(key(x), key(r[j]))
        {
          if 1 < j {
            LessTransitive(key(x), key(sorted[0]), key(sorted[j - 1]));
          }
        }
      } else {
        LessTotal(key(x), key(sorted[0]));
        InsertKeepsSorted(key, x, sorted[1..]);
        forall j | 1 <= j < |r|
          ensures Less(key(sorted[0]), key(r[j]))
        {
          assert r[j] in InsertBy(key, x, sorted[1..]);
        }
      }
    }
  }

  lemma {:induction false} SortBySorts<T(!new)>(key: Key<T>, xs: seq<T>)
    requires DistinctKeys(key, xs)
    ensures StrictlySorted(key, SortBy(key, xs))
  {
    if xs != [] {
      SortBySorts(key, xs[1..]);
      forall y | y in SortBy(key, xs[1..])
        ensures key(y) != key(xs[0])
      {
        var i :| 0 <= i < |xs[1..]| && xs[1..][i] == y;
        assert xs[i + 1] == y;
      }
      InsertKeepsSorted(key, xs[0], SortBy(key, xs[1..]));
    }
  }

  /** A strictly sorted list is determined by its elements. */
  lemma {:induction false} SortedUnique<T(!new)>(key: Key<T>, xs: seq<T>, ys: seq<T>)
    requires StrictlySorted(key, xs) && StrictlySorted(key, ys)
    requires forall x :: x in xs <==> x in ys
    ensures xs == ys
    decreases |xs|
  {
    assert ys != [] ==> ys[0] in ys;
    if xs != [] {
      assert xs[0] in ys && ys[0] in xs;
      SmallestFirst(key, xs, ys[0]);
      SmallestFirst(key, ys, xs[0]);
      if xs[0] != ys[0] {
        LessTransitive(key(xs[0]), key(ys[0]), key(xs[0]));
        LessIrreflexive(key(xs[0]));
      }
      forall x
        ensures x in xs[1..] <==> x in ys[1..]
      {
        TailMember(key, xs, x);
        TailMember(key, ys, x);
      }
      SortedUnique(key, xs[1..], ys[1..]);
      assert xs == [xs[0]] + xs[1..] && ys == [ys[0]] + ys[1..];
    }
  }

  lemma SmallestFirst<T(!new)>(key: Key<T>, xs: seq<T>, x: T)
    requires StrictlySorted(key, xs) && x in xs
    ensures x == xs[0] || Less(key(xs[0]), key(x))
  {
  }

  lemma TailMember<T(!new)>(key: Key<T>, xs: seq<T>, x: T)
    requires StrictlySorted(key, xs) && xs != []
    ensures x in xs[1..] <==> x in xs && x != xs[0]
  {
    if x in xs[1..] {
      var i :| 0 <= i < |xs[1..]| && xs[1..][i] == x;
      assert Less(key(xs[0]), key(xs[i + 1]));
      LessIrreflexive(key(x));
    }
  }

  function Self(s: string): string {
    s
  }

  /** Binary search in a strictly sorted list of strings. */
  method BinarySearch(xs: seq<string>, target: string) returns (found: bool)
    requires StrictlySorted(Self, xs)
    ensures found <==> target in xs
  {
    var low, high := 0, |xs|;
    while low < high
      invariant 0 <= low <= high <= |xs|
      invariant forall i | 0 <= i < low :: Less(xs[i], target)
      invariant forall i | high <= i < |xs| :: Less(target, xs[i])
    {
      var mid := (low + high) / 2;
      if xs[mid] == target {
        return true;
      } else if Less(xs[mid], target) {
        forall i | 0 <= i < mid
          ensures Less(xs[i], target)
        {
          assert Less(Self(xs[i]), Self(xs[mid]));
          LessTransitive(xs[i], xs[mid], target);
        }
        low := mid + 1;
      } else {
        LessTotal(xs[mid], target);
        forall i | mid < i < |xs|
          ensures Less(target, xs[i])
        {
          assert Less(Self(xs[mid]), Self(xs[i]));
          LessTransitive(target, xs[mid], xs[i]);
        }
        high := mid;
      }
    }
    found := false;
    LessIrreflexive(target);
  }
}
