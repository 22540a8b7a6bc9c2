/** Small facts about sequences shared by the chart properties and the id rule. */
module Collections {
  /** No element occurs twice. */
  predicate Distinct<T(==)>(xs: seq<T>) {
    forall i, j :: 0 <= i < j < |xs| ==> xs[i] != xs[j]
  }

  /** The number of positions of xs holding x. */
  function Occurrences<T(==)>(xs: seq<T>, x: T): nat {
    if xs == [] then 0
    else Occurrences(xs[..|xs| - 1], x) + (if xs[|xs| - 1] == x then 1 else 0)
  }

  lemma {:induction false} OccurrencesOfDistinct<T>(xs: seq<T>, x: T)
    requires Distinct(xs)
    ensures Occurrences(xs, x) == if x in xs then 1 else 0
  {
    if xs != [] {
      var init := xs[..|xs| - 1];
      OccurrencesOfDistinct(init, x);
      assert xs == init + [xs[|xs| - 1]];
    }
  }

  function Sum(xs: seq<nat>): nat {
    if xs == [] then 0 else Sum(xs[..|xs| - 1]) + xs[|xs| - 1]
  }
}
