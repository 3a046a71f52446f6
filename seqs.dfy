/** Order-preserving helpers on sequences: filtering and first-occurrence de-duplication. */
module Seqs {

  ghost predicate NoDuplicates<X>(xs: seq<X>) {
    forall i, j | 0 <= i < j < |xs| :: xs[i] != xs[j]
  }

  /** The elements of `xs` that satisfy `p`, in their original order. */
  function Filter<X(!new)>(xs: seq<X>, p: X -> bool): (r: seq<X>)
    ensures |r| <= |xs|
    ensures forall x :: x in r <==> x in xs && p(x)
  {
    if xs == [] then [] else (if p(xs[0]) then [xs[0]] else []) + Filter(xs[1..], p)
  }

  /** Filtering a duplicate-free sequence leaves it duplicate-free. */
  lemma {:induction false} FilterNoDuplicates<X(!new)>(xs: seq<X>, p: X -> bool)
    requires NoDuplicates(xs)
    ensures NoDuplicates(Filter(xs, p))
  {
    if xs != [] {
      FilterNoDuplicates(xs[1..], p);
    }
  }

  /** Nothing passes the filter when no element satisfies `p`. */
  lemma {:induction false} FilterNone<X(!new)>(xs: seq<X>, p: X -> bool)
    requires forall x | x in xs :: !p(x)
    ensures Filter(xs, p) == []
  {
    if xs != [] {
      FilterNone(xs[1..], p);
    }
  }

  /** The position of the first occurrence of `x` in `xs`. */
  function FirstIndex<X(==)>(xs: seq<X>, x: X): (i: nat)
    requires x in xs
    ensures i < |xs| && xs[i] == x
    ensures forall k | 0 <= k < i :: xs[k] != x
  {
    if xs[0] == x then 0 else 1 + FirstIndex(xs[1..], x)
  }

  lemma {:induction false} FirstIndexInPrefix<X>(xs: seq<X>, ys: seq<X>, x: X)
    requires x in xs
    ensures x in xs + ys && FirstIndex(xs + ys, x) == FirstIndex(xs, x)
  {
    var i := FirstIndex(xs, x);
    assert (xs + ys)[i] == x;
    assert forall k | 0 <= k < i :: (xs + ys)[k] == xs[k];
  }

  /** The distinct elements of `xs`, each at the place of its first occurrence
      (what `unique()` and `drop_duplicates()` return): no repeats, the same elements, and
      listed in the order in which they first occur in `xs`. */
  function Distinct<X(==,!new)>(xs: seq<X>): (r: seq<X>)
    ensures NoDuplicates(r)
    ensures forall x :: x in r <==> x in xs
    ensures |r| <= |xs|
    ensures forall i, j | 0 <= i < j < |r| :: FirstIndex(xs, r[i]) < FirstIndex(xs, r[j])
  {
    if xs == [] then []
    else
      var init := xs[..|xs| - 1];
      var d := Distinct(init);
      var last := xs[|xs| - 1];
      assert xs == init + [last];
      forall x | x in d ensures FirstIndex(xs, x) == FirstIndex(init, x) {
        FirstIndexInPrefix(init, [last], x);
      }
      if last in d then d
      else
        var r := d + [last];
        assert FirstIndex(xs, last) == |xs| - 1;
        assert forall i | 0 <= i < |d| :: r[i] == d[i] && FirstIndex(xs, r[i]) < |init|;
        r
  }
}
