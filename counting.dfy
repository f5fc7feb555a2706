/** Counting with repetition: `sum(1 for x in xs if p(x))`, and the sum
    `sum(f(x) for x in xs)`, with the laws the counters of the engine rely on. */
module Counting {

  /** Number of positions of `xs` whose element satisfies `p`. */
  function CountWhere<T>(xs: seq<T>, p: T -> bool): (r: nat)
    ensures r <= |xs|
  {
    if xs == [] then 0
    else CountWhere(xs[..|xs| - 1], p) + (if p(xs[|xs| - 1]) then 1 else 0)
  }

  /** The positions of `xs` whose element satisfies `p`. */
  function Positions<T>(xs: seq<T>, p: T -> bool): set<nat> {
    set k: nat | k < |xs| && p(xs[k])
  }

  /** `sum(f(x) for x in xs)`. When every term is positive the sum is at
      least the number of terms. */
  function Total<T>(xs: seq<T>, f: T -> nat): (r: nat)
    ensures (forall k :: 0 <= k < |xs| ==> f(xs[k]) > 0) ==> r >= |xs|
  {
    if xs == [] then 0 else Total(xs[..|xs| - 1], f) + f(xs[|xs| - 1])
  }

  /** The count is the number of matching positions, with repetition. */
  lemma {:induction false} CountIsPositions<T>(xs: seq<T>, p: T -> bool)
    ensures CountWhere(xs, p) == |Positions(xs, p)|
  {
    if xs != [] {
      var n := |xs| - 1;
      var init := xs[..n];
      CountIsPositions(init, p);
      if p(xs[n]) {
        assert Positions(xs, p) == Positions(init, p) + {n};
      } else {
        assert Positions(xs, p) == Positions(init, p);
      }
    }
  }

  /** Counting is additive over concatenation. */
  lemma {:induction false} CountAppend<T>(a: seq<T>, b: seq<T>, p: T -> bool)
    ensures CountWhere(a + b, p) == CountWhere(a, p) + CountWhere(b, p)
    decreases |b|
  {
    if b == [] {
      assert a + b == a;
    } else {
      var n := |b| - 1;
      assert (a + b)[..|a + b| - 1] == a + b[..n];
      assert (a + b)[|a + b| - 1] == b[n];
      CountAppend(a, b[..n], p);
    }
  }

  lemma CountSingleton<T>(x: T, p: T -> bool)
    ensures CountWhere([x], p) == if p(x) then 1 else 0
  {
    assert [x][..0] == [];
  }

  /** Removing one element changes the count by that element's share. */
  lemma CountRemove<T>(a: seq<T>, x: T, b: seq<T>, p: T -> bool)
    ensures CountWhere(a + [x] + b, p) == CountWhere(a + b, p) + (if p(x) then 1 else 0)
  {
    CountAppend(a + [x], b, p);
    CountAppend(a, [x], p);
    CountAppend(a, b, p);
    CountSingleton(x, p);
  }

  /** A pointwise weaker predicate never counts less. */
  lemma {:induction false} CountMonotone<T>(xs: seq<T>, p: T -> bool, q: T -> bool)
    requires forall k :: 0 <= k < |xs| && p(xs[k]) ==> q(xs[k])
    ensures CountWhere(xs, p) <= CountWhere(xs, q)
  {
    if xs != [] {
      var n := |xs| - 1;
      assert forall k :: 0 <= k < n ==> xs[..n][k] == xs[k];
      CountMonotone(xs[..n], p, q);
    }
  }

  /** Every element matches exactly when the count is the length. */
  lemma {:induction false} CountAll<T>(xs: seq<T>, p: T -> bool)
    ensures CountWhere(xs, p) == |xs| <==> forall k :: 0 <= k < |xs| ==> p(xs[k])
  {
    if xs != [] {
      var n := |xs| - 1;
      assert forall k :: 0 <= k < n ==> xs[..n][k] == xs[k];
      CountAll(xs[..n], p);
    }
  }

  /** No element matches exactly when the count is zero. */
  lemma {:induction false} CountNone<T>(xs: seq<T>, p: T -> bool)
    ensures CountWhere(xs, p) == 0 <==> forall k :: 0 <= k < |xs| ==> !p(xs[k])
  {
    if xs != [] {
      var n := |xs| - 1;
      assert forall k :: 0 <= k < n ==> xs[..n][k] == xs[k];
      CountNone(xs[..n], p);
    }
  }

  /** Inclusion and exclusion: an element satisfying both predicates is
      counted by each of them. */
  lemma {:induction false} CountUnion<T>(xs: seq<T>, p: T -> bool, q: T -> bool,
                                       either: T -> bool, both: T -> bool)
    requires forall x :: either(x) == (p(x) || q(x))
    requires forall x :: both(x) == (p(x) && q(x))
    ensures CountWhere(xs, either) + CountWhere(xs, both) == CountWhere(xs, p) + CountWhere(xs, q)
  {
    if xs != [] {
      CountUnion(xs[..|xs| - 1], p, q, either, both);
    }
  }

  /** Counting ignores order: permuted sequences count the same. */
  lemma {:induction false} CountPermutation<T>(a: seq<T>, b: seq<T>, p: T -> bool)
    requires multiset(a) == multiset(b)
    ensures CountWhere(a, p) == CountWhere(b, p)
    decreases |a|
  {
    if a != [] {
      var n := |a| - 1;
      var x := a[n];
      assert a == a[..n] + [x];
      assert x in multiset(b);
      var j :| 0 <= j < |b| && b[j] == x;
      var b1, b2 := b[..j], b[j + 1..];
      assert b == b1 + [x] + b2;
      MultisetRemove(a[..n], b1, x, b2);
      CountPermutation(a[..n], b1 + b2, p);
      CountRemove(b1, x, b2, p);
      CountAppend(a[..n], [x], p);
      CountSingleton(x, p);
    }
  }

  lemma MultisetRemove<T>(a: seq<T>, b1: seq<T>, x: T, b2: seq<T>)
    requires multiset(a + [x]) == multiset(b1 + [x] + b2)
    ensures multiset(a) == multiset(b1 + b2)
  {
    calc {
      multiset(a) + multiset{x};
      multiset(a + [x]);
      multiset(b1 + [x] + b2);
      multiset(b1 + b2) + multiset{x};
    }
    forall y ensures multiset(a)[y] == multiset(b1 + b2)[y] {
      assert (multiset(a) + multiset{x})[y] == (multiset(b1 + b2) + multiset{x})[y];
    }
  }

  // ---------------------------------------------------------------------
  // Sums.

  /** Counting is summing ones: the count is the sum of the 0/1 indicator. */
  lemma {:induction false} CountIsTotal<T>(xs: seq<T>, p: T -> bool, indicator: T -> nat)
    requires forall x :: indicator(x) == if p(x) then 1 else 0
    ensures CountWhere(xs, p) == Total(xs, indicator)
  {
    if xs != [] {
      CountIsTotal(xs[..|xs| - 1], p, indicator);
    }
  }

  /** The sum is additive over concatenation. */
  lemma {:induction false} TotalAppend<T>(a: seq<T>, b: seq<T>, f: T -> nat)
    ensures Total(a + b, f) == Total(a, f) + Total(b, f)
    decreases |b|
  {
    if b == [] {
      assert a + b == a;
    } else {
      var n := |b| - 1;
      assert (a + b)[..|a + b| - 1] == a + b[..n];
      assert (a + b)[|a + b| - 1] == b[n];
      TotalAppend(a, b[..n], f);
    }
  }

  /** The sum over `[x] + xs` is `f(x)` plus the sum over `xs`. */
  lemma TotalCons<T>(x: T, xs: seq<T>, f: T -> nat)
    ensures Total([x] + xs, f) == f(x) + Total(xs, f)
  {
    TotalAppend([x], xs, f);
    assert [x][..0] == [];
  }

  /** Summing ignores order: permuted sequences have the same sum. */
  lemma {:induction false} TotalPermutation<T>(a: seq<T>, b: seq<T>, f: T -> nat)
    requires multiset(a) == multiset(b)
    ensures Total(a, f) == Total(b, f)
    decreases |a|
  {
    if a != [] {
      var n := |a| - 1;
      var x := a[n];
      assert a == a[..n] + [x];
      assert x in multiset(b);
      var j :| 0 <= j < |b| && b[j] == x;
      var b1, b2 := b[..j], b[j + 1..];
      assert b == b1 + [x] + b2;
      MultisetRemove(a[..n], b1, x, b2);
      TotalPermutation(a[..n], b1 + b2, f);
      TotalAppend(b1 + [x], b2, f);
      TotalAppend(b1, [x], f);
      TotalAppend(b1, b2, f);
      assert [x][..0] == [];
    }
  }
}
