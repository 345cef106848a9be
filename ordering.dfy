/** The `orderBy` of the database queries: a stable sort of a table's rows
    under a total preorder on them. */
module Ordering {

  /** `before` relates any two values one way or the other. */
  ghost predicate Total<T(!new)>(before: (T, T) -> bool) {
    forall a, b :: before(a, b) || before(b, a)
  }

  /** Every neighbouring pair of `xs` is in order. */
  predicate Sorted<T>(xs: seq<T>, before: (T, T) -> bool) {
    forall i :: 0 < i < |xs| ==> before(xs[i - 1], xs[i])
  }

  /** `x` placed in `xs` in front of the first element it may precede. */
  function Insert<T(!new)>(x: T, xs: seq<T>, before: (T, T) -> bool): (r: seq<T>)
    requires Total(before)
    requires Sorted(xs, before)
    ensures multiset(r) == multiset(xs) + multiset{x}
    ensures Sorted(r, before)
    ensures |r| == |xs| + 1
    ensures r[0] == x || (xs != [] && r[0] == xs[0])
  {
    if xs == [] || before(x, xs[0]) then [x] + xs
    else
      var rest := Insert(x, xs[1..], before);
      assert xs == [xs[0]] + xs[1..];
      [xs[0]] + rest
  }

  /** `xs` rearranged into order: same elements, same multiplicities. */
  function SortBy<T(!new)>(xs: seq<T>, before: (T, T) -> bool): (r: seq<T>)
    requires Total(before)
    ensures multiset(r) == multiset(xs)
    ensures Sorted(r, before)
    ensures |r| == |xs|
  {
    if xs == [] then []
    else
      assert xs == [xs[0]] + xs[1..];
      Insert(xs[0], SortBy(xs[1..], before), before)
  }
}
