/** Regrouping of lists. */
module Lists {
  lemma Associative<T>(a: seq<T>, b: seq<T>, c: seq<T>)
    ensures (a + b) + c == a + (b + c)
  {
  }

  /** The last element of a joined list comes off its second part. */
  lemma JoinedLast<T>(a: seq<T>, b: seq<T>)
    requires b != []
    ensures var n := |b| - 1;
            && a + b == (a + b[..n]) + [b[n]]
            && (a + b)[..|a + b| - 1] == a + b[..n]
            && (a + b)[|a + b| - 1] == b[n]
  {
  }

  lemma TakeOneMore<T>(s: seq<T>, k: nat)
    requires k < |s|
    ensures s[..k] + [s[k]] == s[..k + 1]
  {
  }

  /** Where two joined lists stand in a longer one, each of them stands by itself. */
  lemma JoinedAt<T>(s: seq<T>, from: nat, to: nat, a: seq<T>, b: seq<T>)
    requires from <= to <= |s| && s[from..to] == a + b
    ensures to == from + |a| + |b|
    ensures s[from..from + |a|] == a && s[from + |a|..to] == b
  {
    var slice := s[from..to];
    assert |slice| == |a| + |b|;
    assert slice[..|a|] == a && slice[|a|..] == b;
    assert s[from..from + |a|] == slice[..|a|];
    assert s[from + |a|..to] == slice[|a|..];
  }

  /** The chosen elements, in order. */
  function Selected<T>(xs: seq<T>, chosen: seq<bool>): seq<T>
    requires |chosen| == |xs|
  {
    if xs == [] then []
    else
      var n := |xs| - 1;
      Selected(xs[..n], chosen[..n]) + if chosen[n] then [xs[n]] else []
  }

  lemma {:induction false} SelectedHas<T>(xs: seq<T>, chosen: seq<bool>, i: nat)
    requires |chosen| == |xs| && i < |xs| && chosen[i]
    ensures xs[i] in Selected(xs, chosen)
    decreases |xs|
  {
    var n := |xs| - 1;
    if i < n {
      SelectedHas(xs[..n], chosen[..n], i);
    }
  }

  lemma {:induction false} AllSelected<T>(xs: seq<T>, chosen: seq<bool>)
    requires |chosen| == |xs| && forall i | 0 <= i < |xs| :: chosen[i]
    ensures Selected(xs, chosen) == xs
    decreases |xs|
  {
    if xs != [] {
      var n := |xs| - 1;
      AllSelected(xs[..n], chosen[..n]);
      assert xs == xs[..n] + [xs[n]];
    }
  }
}
