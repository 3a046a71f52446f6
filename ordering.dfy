/** Strict total orders and the sorted, duplicate-free sequences that pandas' `pivot`
    produces for its index (years, ascending) and its columns (country names, in
    Python's string order). */
module Ordering {
  import Seqs

  ghost predicate StrictTotalOrder<K(!new)>(lt: (K, K) -> bool) {
    && (forall a :: !lt(a, a))
    && (forall a, b, c :: lt(a, b) && lt(b, c) ==> lt(a, c))
    && (forall a, b :: a != b ==> lt(a, b) || lt(b, a))
  }

  ghost predicate StrictlySorted<K>(xs: seq<K>, lt: (K, K) -> bool) {
    forall i, j | 0 <= i < j < |xs| :: lt(xs[i], xs[j])
  }

  /** Numeric order on years. */
  predicate IntLt(a: int, b: int) {
    a < b
  }

  /** Python's `<` on `str`: lexicographic by code point, a proper prefix first. */
  predicate StrLt(a: string, b: string) {
    if |a| == 0 then |b| > 0
    else if |b| == 0 then false
    else if a[0] != b[0] then a[0] < b[0]
    else StrLt(a[1..], b[1..])
  }

  lemma IntLtIsStrictTotalOrder()
    ensures StrictTotalOrder(IntLt)
  {
  }

  lemma {:induction false} StrLtIrreflexive(a: string)
    ensures !StrLt(a, a)
  {
    if |a| > 0 {
      StrLtIrreflexive(a[1..]);
    }
  }

  lemma {:induction false} StrLtTransitive(a: string, b: string, c: string)
    requires StrLt(a, b) && StrLt(b, c)
    ensures StrLt(a, c)
  {
    if |a| > 0 && a[0] == b[0] && b[0] == c[0] {
      StrLtTransitive(a[1..], b[1..], c[1..]);
    }
  }

  lemma {:induction false} StrLtTotal(a: string, b: string)
    requires a != b
    ensures StrLt(a, b) || StrLt(b, a)
  {
    if |a| > 0 && |b| > 0 && a[0] == b[0] {
      assert a == [a[0]] + a[1..] && b == [b[0]] + b[1..];
      StrLtTotal(a[1..], b[1..]);
    }
  }

  /** Python's string order is a strict total order, so sorting country names is well defined. */
  lemma StrLtIsStrictTotalOrder()
    ensures StrictTotalOrder(StrLt)
  {
    forall a ensures !StrLt(a, a) {
      StrLtIrreflexive(a);
    }
    forall a, b, c | StrLt(a, b) && StrLt(b, c) ensures StrLt(a, c) {
      StrLtTransitive(a, b, c);
    }
    forall a, b | a != b ensures StrLt(a, b) || StrLt(b, a) {
      StrLtTotal(a, b);
    }
  }

  /** Puts `y` in its place in a strictly sorted sequence, unless it is already there. */
  function Insert<K(==,!new)>(xs: seq<K>, y: K, lt: (K, K) -> bool): (r: seq<K>)
    requires StrictTotalOrder(lt) && StrictlySorted(xs, lt)
    ensures StrictlySorted(r, lt)
    ensures forall z :: z in r <==> z in xs || z == y
  {
    if xs == [] then [y]
    else if y == xs[0] then xs
    else if lt(y, xs[0]) then [y] + xs
    else
      var rest := Insert(xs[1..], y, lt);
      HeadBelowTail(xs, lt);
      ConsSorted(xs[0], rest, lt);
      [xs[0]] + rest
  }

  lemma HeadBelowTail<K>(xs: seq<K>, lt: (K, K) -> bool)
    requires |xs| > 0 && StrictlySorted(xs, lt)
    ensures forall z | z in xs[1..] :: lt(xs[0], z)
  {
    forall z | z in xs[1..] ensures lt(xs[0], z) {
      var k :| 0 <= k < |xs[1..]| && xs[1..][k] == z;
      assert xs[k + 1] == z;
    }
  }

  lemma ConsSorted<K>(x: K, rest: seq<K>, lt: (K, K) -> bool)
    requires StrictlySorted(rest, lt)
    requires forall z | z in rest :: lt(x, z)
    ensures StrictlySorted([x] + rest, lt)
  {
    forall i, j | 0 <= i < j < |[x] + rest| ensures lt(([x] + rest)[i], ([x] + rest)[j]) {
      assert ([x] + rest)[j] == rest[j - 1];
      if i > 0 {
        assert ([x] + rest)[i] == rest[i - 1];
      }
    }
  }

  /** The distinct values of `xs` in ascending order (the index or the columns of a pivot). */
  function SortedUnique<K(==,!new)>(xs: seq<K>, lt: (K, K) -> bool): (r: seq<K>)
    requires StrictTotalOrder(lt)
    ensures StrictlySorted(r, lt)
    ensures forall z :: z in r <==> z in xs
  {
    if xs == [] then [] else Insert(SortedUnique(xs[1..], lt), xs[0], lt)
  }

  /** Under a strict order a strictly sorted sequence repeats nothing. */
  lemma SortedNoDuplicates<K(!new)>(xs: seq<K>, lt: (K, K) -> bool)
    requires StrictTotalOrder(lt) && StrictlySorted(xs, lt)
    ensures Seqs.NoDuplicates(xs)
  {
  }

  /** Dropping entries from a strictly sorted sequence keeps it strictly sorted. */
  lemma {:induction false} FilterKeepsSorted<K(!new)>(xs: seq<K>, p: K -> bool, lt: (K, K) -> bool)
    requires StrictlySorted(xs, lt)
    ensures StrictlySorted(Seqs.Filter(xs, p), lt)
  {
    if xs != [] {
      FilterKeepsSorted(xs[1..], p, lt);
      HeadBelowTail(xs, lt);
      ConsSorted(xs[0], Seqs.Filter(xs[1..], p), lt);
    }
  }
}
