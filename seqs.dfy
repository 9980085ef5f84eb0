/** Element-wise maps and filters over sequences, the shapes of Python's list comprehensions. */
module Seqs {

  /** `[f(x) for x in xs]`. */
  function Map<A, B>(f: A -> B, xs: seq<A>): (r: seq<B>)
    ensures |r| == |xs| && forall k :: 0 <= k < |xs| ==> r[k] == f(xs[k])
  {
    seq(|xs|, k requires 0 <= k < |xs| => f(xs[k]))
  }

  lemma MapAppend<A, B>(f: A -> B, a: seq<A>, b: seq<A>)
    ensures Map(f, a + b) == Map(f, a) + Map(f, b)
  {
    var l, r := Map(f, a + b), Map(f, a) + Map(f, b);
    forall k | 0 <= k < |l| ensures l[k] == r[k] {
      if k < |a| {
        assert (a + b)[k] == a[k];
      } else {
        assert (a + b)[k] == b[k - |a|];
      }
    }
  }

  lemma MapLast<A, B>(f: A -> B, xs: seq<A>, i: nat)
    requires i < |xs|
    ensures Map(f, xs[..i + 1]) == Map(f, xs[..i]) + [f(xs[i])]
  {
    assert xs[..i + 1] == xs[..i] + [xs[i]];
    MapAppend(f, xs[..i], [xs[i]]);
  }

  /** `[x for x in xs if keep(x)]`. */
  function Filter<T>(keep: T -> bool, xs: seq<T>): (r: seq<T>)
    ensures |r| <= |xs|
    decreases |xs|
  {
    if xs == [] then []
    else
      var init := Filter(keep, xs[..|xs| - 1]);
      if keep(xs[|xs| - 1]) then init + [xs[|xs| - 1]] else init
  }

  /** The filter keeps exactly the accepted elements. */
  lemma {:induction false} FilterMembers<T>(keep: T -> bool, xs: seq<T>)
    ensures forall x :: x in Filter(keep, xs) <==> x in xs && keep(x)
    decreases |xs|
  {
    if xs != [] {
      var init := xs[..|xs| - 1];
      FilterMembers(keep, init);
      assert xs == init + [xs[|xs| - 1]];
    }
  }

  lemma FilterLast<T>(keep: T -> bool, xs: seq<T>, x: T)
    ensures Filter(keep, xs + [x]) == Filter(keep, xs) + (if keep(x) then [x] else [])
  {
    assert (xs + [x])[..|xs|] == xs;
  }

  /** Filtering works element by element, so it keeps the order. */
  lemma {:induction false} FilterAppend<T>(keep: T -> bool, a: seq<T>, b: seq<T>)
    ensures Filter(keep, a + b) == Filter(keep, a) + Filter(keep, b)
    decreases |b|
  {
    if b == [] {
      assert a + b == a;
    } else {
      var b' := b[..|b| - 1];
      var x := b[|b| - 1];
      FilterAppend(keep, a, b');
      SplitLast(a, b);
      FilterLast(keep, a + b', x);
      FilterLast(keep, b', x);
    }
  }

  /** A filter that accepts everything keeps everything. */
  lemma {:induction false} FilterAll<T>(keep: T -> bool, xs: seq<T>)
    requires forall k :: 0 <= k < |xs| ==> keep(xs[k])
    ensures Filter(keep, xs) == xs
    decreases |xs|
  {
    if xs != [] {
      FilterAll(keep, xs[..|xs| - 1]);
    }
  }

  /** A non-empty b is its front followed by its last element, also after a prefix a. */
  lemma SplitLast<T>(a: seq<T>, b: seq<T>)
    requires b != []
    ensures b == b[..|b| - 1] + [b[|b| - 1]]
    ensures a + b == (a + b[..|b| - 1]) + [b[|b| - 1]]
  {
  }

  lemma SliceExtend<T>(xs: seq<T>, ys: seq<T>, j: nat)
    requires j < |ys|
    ensures xs + ys[..j + 1] == (xs + ys[..j]) + [ys[j]]
  {
    assert ys[..j + 1] == ys[..j] + [ys[j]];
  }

  /**
    In a family of sequences where each member contains whatever the next one does, what the
    i-th contains, every earlier one contains as well.
   */
  lemma {:induction false} InEarlier<T>(f: nat -> seq<T>, x: T, j: nat, i: nat)
    requires j <= i && x in f(i)
    requires forall k: nat, m: nat :: j <= k && m == k + 1 && m <= i && x in f(m) ==> x in f(k)
    ensures x in f(j)
    decreases i - j
  {
    if j < i {
      InEarlier(f, x, j + 1, i);
    }
  }
}
