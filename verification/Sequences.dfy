/** Operations on sequences that several components share. */
module Sequences {
  /** The last `n` elements, or all of them. */
  function LastOf<T>(xs: seq<T>, n: nat): seq<T> {
    if |xs| <= n then xs else xs[|xs| - n..]
  }

  lemma {:induction false} LastOfSuffix<T>(xs: seq<T>, n: nat)
    ensures var r := LastOf(xs, n);
      |r| == (if |xs| <= n then |xs| else n) && xs == xs[..|xs| - |r|] + r
  {}

  ghost predicate Distinct<T>(xs: seq<T>) {
    forall i, j :: 0 <= i < j < |xs| ==> xs[i] != xs[j]
  }

  /** How many elements satisfy `p`. */
  function Count<T>(xs: seq<T>, p: T -> bool): nat {
    if xs == [] then 0 else (if p(xs[0]) then 1 else 0) + Count(xs[1..], p)
  }

  /** Where `x` first occurs. */
  function Position<T(==)>(xs: seq<T>, x: T): (i: nat)
    requires x in xs
    ensures i < |xs| && xs[i] == x && x !in xs[..i]
  {
    if xs[0] == x then 0
    else
      var i := Position(xs[1..], x);
      assert xs[..i + 1] == [xs[0]] + xs[1..][..i];
      i + 1
  }
}
