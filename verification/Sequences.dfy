/** First occurrences, as `tuple(dict.fromkeys(xs))` keeps them. */
module Sequences {

  function Distinct<T(==,!new)>(xs: seq<T>): (r: seq<T>)
    ensures forall x :: x in r <==> x in xs
    ensures forall i, j :: 0 <= i < j < |r| ==> r[i] != r[j]
    ensures |r| <= |xs|
  {
    if xs == [] then []
    else
      var front, last := Distinct(xs[..|xs| - 1]), xs[|xs| - 1];
      assert xs == xs[..|xs| - 1] + [last];
      if last in front then front else front + [last]
  }

  /** Removing duplicates from a list without any changes nothing. */
  lemma {:induction false} DistinctOfDistinct<T(!new)>(xs: seq<T>)
    requires forall i, j :: 0 <= i < j < |xs| ==> xs[i] != xs[j]
    ensures Distinct(xs) == xs
  {
    if xs != [] {
      var front, last := xs[..|xs| - 1], xs[|xs| - 1];
      DistinctOfDistinct(front);
      assert xs == front + [last];
    }
  }

  /** What is kept of a list comes first, in the same order, whatever follows the list. */
  lemma {:induction false} DistinctGrows<T(!new)>(xs: seq<T>, ys: seq<T>)
    ensures Distinct(xs) <= Distinct(xs + ys)
  {
    if ys == [] {
      assert xs + ys == xs;
    } else {
      var front := ys[..|ys| - 1];
      DistinctGrows(xs, front);
      assert (xs + ys)[..|xs + ys| - 1] == xs + front;
    }
  }
}
