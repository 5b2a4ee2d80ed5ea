/** Bookkeeping for multisets of stored objects. */
module Multisets {

  /**
   * Moving one element from a list into an accumulator that already
   * balances the rest keeps the books balanced.
   */
  lemma {:induction false} Rebalance<T>(whole: multiset<T>, rest: multiset<T>, kept: multiset<T>,
                                        keptRest: multiset<T>, side: multiset<T>,
                                        sideBefore: multiset<T>, x: T)
    requires whole == multiset{x} + rest
    requires kept == multiset{x} + keptRest
    requires keptRest + side == rest + sideBefore
    ensures kept + side == whole + sideBefore
  {
    calc {
      kept + side;
      multiset{x} + keptRest + side;
      multiset{x} + (keptRest + side);
      multiset{x} + (rest + sideBefore);
      multiset{x} + rest + sideBefore;
      whole + sideBefore;
    }
  }

  /** The same, when the element goes to the side instead of staying kept. */
  lemma {:induction false} MoveAside<T>(whole: multiset<T>, rest: multiset<T>, kept: multiset<T>,
                                        side: multiset<T>, sideBefore: multiset<T>,
                                        sideMoved: multiset<T>, x: T)
    requires whole == multiset{x} + rest
    requires sideMoved == sideBefore + multiset{x}
    requires kept + side == rest + sideMoved
    ensures kept + side == whole + sideBefore
  {
    calc {
      kept + side;
      rest + sideMoved;
      rest + (sideBefore + multiset{x});
      multiset{x} + rest + sideBefore;
      whole + sideBefore;
    }
  }
}
