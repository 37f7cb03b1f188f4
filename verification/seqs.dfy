/** Order-preserving selection: the positions of a sequence whose elements a
    predicate keeps, in ascending order. Every "loop over the elements and
    append the ones that pass" in the scrapers is described through it. */
module Seqs {

  /** The ascending positions `k` of `xs` with `keep(xs[k])`; exactly those. */
  function KeptPositions<T>(xs: seq<T>, keep: T -> bool): (r: seq<nat>)
    ensures |r| <= |xs|
    ensures forall m :: 0 <= m < |r| ==> r[m] < |xs| && keep(xs[r[m]])
    decreases |xs|
  {
    if |xs| == 0 then
      []
    else
      var n := |xs| - 1;
      KeptPositions(xs[..n], keep) + (if keep(xs[n]) then [n] else [])
  }

  /** The kept positions come in ascending order. */
  lemma {:induction false} KeptPositionsAscending<T>(xs: seq<T>, keep: T -> bool)
    ensures Ascending(KeptPositions(xs, keep))
    decreases |xs|
  {
    if |xs| > 0 {
      var n := |xs| - 1;
      KeptPositionsAscending(xs[..n], keep);
    }
  }

  /** Every position whose element is kept is among the kept positions. */
  lemma {:induction false} KeptPositionsComplete<T>(xs: seq<T>, keep: T -> bool)
    ensures forall k :: 0 <= k < |xs| && keep(xs[k]) ==> k in KeptPositions(xs, keep)
    decreases |xs|
  {
    if |xs| > 0 {
      var n := |xs| - 1;
      var prefix := xs[..n];
      KeptPositionsComplete(prefix, keep);
      forall k | 0 <= k < n && keep(xs[k])
        ensures k in KeptPositions(xs, keep)
      {
        assert prefix[k] == xs[k];
      }
    }
  }

  /** Strictly increasing sequence of naturals */
  ghost predicate Ascending(p: seq<nat>) {
    forall m, m' :: 0 <= m < m' < |p| ==> p[m] < p[m']
  }

  /** One more element: its position is kept after the earlier ones exactly
      when the predicate keeps it. */
  lemma {:induction false} KeptPositionsSnoc<T>(xs: seq<T>, n: nat, keep: T -> bool)
    requires n < |xs|
    ensures KeptPositions(xs[..n + 1], keep) == KeptPositions(xs[..n], keep) + (if keep(xs[n]) then [n] else [])
  {
    assert xs[..n + 1][..n] == xs[..n];
  }

  /** `ys` holds `f(k)` for every kept position `k` of `xs`, in order, and
      nothing else. */
  ghost predicate MatchesKept<T, U>(xs: seq<T>, keep: T -> bool, f: nat -> U, ys: seq<U>) {
    var kept := KeptPositions(xs, keep);
    |ys| == |kept| && forall m :: 0 <= m < |kept| ==> ys[m] == f(kept[m])
  }

  /** A loop that appends `f(n)` exactly when element `n` is kept keeps
      `MatchesKept` for one more element. */
  lemma {:induction false} MatchesKeptSnoc<T, U>(xs: seq<T>, n: nat, keep: T -> bool, f: nat -> U, ys: seq<U>)
    requires n < |xs| && MatchesKept(xs[..n], keep, f, ys)
    ensures MatchesKept(xs[..n + 1], keep, f, if keep(xs[n]) then ys + [f(n)] else ys)
  {
    KeptPositionsSnoc(xs, n, keep);
    var prev := KeptPositions(xs[..n], keep);
    var kept := KeptPositions(xs[..n + 1], keep);
    if keep(xs[n]) {
      var ys' := ys + [f(n)];
      forall m | 0 <= m < |kept|
        ensures ys'[m] == f(kept[m])
      {
        if m < |prev| {
          assert ys'[m] == ys[m] && kept[m] == prev[m];
        }
      }
    }
  }

  lemma {:induction false} PrefixSnoc<T>(xs: seq<T>, n: nat)
    requires n < |xs|
    ensures xs[..n] + [xs[n]] == xs[..n + 1]
  {
  }

  /** The concatenation of the sequences of `xss`, in order */
  function Flatten<T>(xss: seq<seq<T>>): seq<T>
    decreases |xss|
  {
    if |xss| == 0 then [] else Flatten(xss[..|xss| - 1]) + xss[|xss| - 1]
  }

  /** An element of the concatenation comes from one of its parts. */
  lemma {:induction false} FlattenMember<T>(xss: seq<seq<T>>, x: T)
    requires x in Flatten(xss)
    ensures exists i :: 0 <= i < |xss| && x in xss[i]
    decreases |xss|
  {
    var n := |xss| - 1;
    if x !in xss[n] {
      FlattenMember(xss[..n], x);
      var i :| 0 <= i < n && x in xss[..n][i];
      assert xss[..n][i] == xss[i];
    }
  }

  /** Every element of every part is in the concatenation. */
  lemma {:induction false} FlattenContains<T>(xss: seq<seq<T>>, i: nat, x: T)
    requires i < |xss| && x in xss[i]
    ensures x in Flatten(xss)
    decreases |xss|
  {
    var n := |xss| - 1;
    if i < n {
      assert xss[..n][i] == xss[i];
      FlattenContains(xss[..n], i, x);
    }
  }

  /** When every element is kept, every position is. */
  lemma {:induction false} KeptAll<T>(xs: seq<T>, keep: T -> bool)
    requires forall k :: 0 <= k < |xs| ==> keep(xs[k])
    ensures |KeptPositions(xs, keep)| == |xs|
    ensures forall m :: 0 <= m < |xs| ==> KeptPositions(xs, keep)[m] == m
    decreases |xs|
  {
    if |xs| > 0 {
      var n := |xs| - 1;
      KeptAll(xs[..n], keep);
    }
  }

  /** Three elements, the middle one dropped: positions 0 and 2 remain. */
  lemma {:induction false} KeptOuterOfThree<T>(xs: seq<T>, keep: T -> bool)
    requires |xs| == 3 && keep(xs[0]) && !keep(xs[1]) && keep(xs[2])
    ensures KeptPositions(xs, keep) == [0, 2]
  {
    assert xs[..1][..0] == [];
    KeptPositionsSnoc(xs, 0, keep);
    KeptPositionsSnoc(xs, 1, keep);
    KeptPositionsSnoc(xs, 2, keep);
    assert xs[..3] == xs;
  }

  /** The elements at the kept positions are exactly the kept elements. */
  lemma {:induction false} KeptElements<T>(xs: seq<T>, keep: T -> bool, ys: seq<T>)
    requires |ys| == |KeptPositions(xs, keep)|
    requires forall m :: 0 <= m < |ys| ==> ys[m] == xs[KeptPositions(xs, keep)[m]]
    ensures forall y :: y in ys <==> y in xs && keep(y)
  {
    var kept := KeptPositions(xs, keep);
    KeptPositionsComplete(xs, keep);
    forall y | y in xs && keep(y)
      ensures y in ys
    {
      var k :| 0 <= k < |xs| && xs[k] == y;
      assert k in kept;
      var m :| 0 <= m < |kept| && kept[m] == k;
      assert ys[m] == y;
    }
  }

  /** When all but the first element are kept, the positions are 1, 2, ... */
  lemma {:induction false} KeptAllButFirst<T>(xs: seq<T>, keep: T -> bool)
    requires |xs| > 0 && !keep(xs[0])
    requires forall k :: 1 <= k < |xs| ==> keep(xs[k])
    ensures |KeptPositions(xs, keep)| == |xs| - 1
    ensures forall m :: 0 <= m < |xs| - 1 ==> KeptPositions(xs, keep)[m] == m + 1
    decreases |xs|
  {
    if |xs| == 1 {
      assert xs[..0] == [];
    } else {
      var n := |xs| - 1;
      var prefix := xs[..n];
      assert prefix[0] == xs[0];
      assert forall k :: 1 <= k < n ==> prefix[k] == xs[k];
      KeptAllButFirst(prefix, keep);
      var prev := KeptPositions(prefix, keep);
      assert keep(xs[n]);
      assert KeptPositions(xs, keep) == prev + [n];
      CountingFromOneSnoc(prev, n);
    }
  }

  /** 1, 2, ..., n-1 followed by n is 1, 2, ..., n. */
  lemma CountingFromOneSnoc(p: seq<nat>, n: nat)
    requires |p| + 1 == n && forall m :: 0 <= m < |p| ==> p[m] == m + 1
    ensures forall m :: 0 <= m < n ==> (p + [n])[m] == m + 1
  {
  }
}
