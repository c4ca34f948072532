/** Sizes of finite sets. */
module FiniteSets {

  lemma {:induction false} SubsetSize<T>(a: set<T>, b: set<T>)
    requires a <= b
    ensures |a| <= |b|
    decreases a
  {
    if a != {} {
      var x :| x in a;
      SubsetSize(a - {x}, b - {x});
    }
  }

  /** What is left of a set gets smaller as more of it is done. */
  lemma SmallerRest<T>(all: set<T>, small: set<T>, big: set<T>)
    requires small < big <= all
    ensures |all - big| < |all - small|
  {
    assert big - small != {};
    var x :| x in big - small;
    SubsetSize(all - big, all - small - {x});
  }
}
