/**
 * Sums of a vector-valued quantity over a list of bodies, and how they
 * change when bodies are replaced.  The simulations use these to state that
 * a step keeps the sum of positions, the total momentum or the
 * mass-weighted centre.
 */
module Sums {
  import opened Vec2

  function Total<T>(xs: seq<T>, f: T -> Vec): Vec {
    if xs == [] then Zero else Add(f(xs[0]), Total(xs[1..], f))
  }

  /** Replacing one element changes the total by exactly the difference. */
  lemma {:induction false} TotalUpdate<T>(xs: seq<T>, i: int, x: T, f: T -> Vec)
    requires 0 <= i < |xs|
    ensures Total(xs[i := x], f) == Add(Sub(Total(xs, f), f(xs[i])), f(x))
  {
    if i > 0 {
      assert xs[i := x][1..] == xs[1..][i - 1 := x];
      TotalUpdate(xs[1..], i - 1, x, f);
    }
  }

  /** Replacing two distinct elements by a pair with the same sum keeps the total. */
  lemma PairKeepsTotal<T>(xs: seq<T>, i: int, j: int, x: T, y: T, f: T -> Vec)
    requires 0 <= i < |xs| && 0 <= j < |xs| && i != j
    requires Add(f(x), f(y)) == Add(f(xs[i]), f(xs[j]))
    ensures Total(xs[i := x][j := y], f) == Total(xs, f)
  {
    TotalUpdate(xs, i, x, f);
    TotalUpdate(xs[i := x], j, y, f);
  }
}
