/** Sequence and dictionary helpers shared by the models. */
module Seqs {

  /** A Python dict iterated in insertion order is a sequence of pairs with distinct keys. */
  ghost predicate DistinctKeys<K, V>(s: seq<(K, V)>) {
    forall i, j :: 0 <= i < j < |s| ==> s[i].0 != s[j].0
  }

  /** The keys of such a sequence, in order. */
  function Keys<K, V>(s: seq<(K, V)>): (ks: seq<K>)
    ensures |ks| == |s|
    ensures forall k :: 0 <= k < |s| ==> ks[k] == s[k].0
    decreases |s|
  {
    if s == [] then [] else Keys(s[..|s| - 1]) + [s[|s| - 1].0]
  }

  /** `list.remove(x)`: drops the first occurrence of `x`, which must be present. */
  function RemoveFirst<T(==)>(s: seq<T>, x: T): (r: seq<T>)
    requires x in s
    ensures |r| == |s| - 1
    decreases |s|
  {
    if s[0] == x then s[1..] else [s[0]] + RemoveFirst(s[1..], x)
  }

  /** Removing `x` from `xs + [x] + ys` when `xs` holds no `x` takes out exactly that occurrence. */
  lemma {:induction false} RemoveFirstAfter<T>(xs: seq<T>, x: T, ys: seq<T>)
    requires x !in xs
    ensures x in xs + [x] + ys
    ensures RemoveFirst(xs + [x] + ys, x) == xs + ys
    decreases |xs|
  {
    var s := xs + [x] + ys;
    assert s[|xs|] == x;
    if xs == [] {
      assert s[1..] == ys;
    } else {
      assert s[0] == xs[0] && xs[0] != x;
      assert s[1..] == xs[1..] + [x] + ys;
      RemoveFirstAfter(xs[1..], x, ys);
      assert [xs[0]] + (xs[1..] + ys) == xs + ys;
    }
  }
}
