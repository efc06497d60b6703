/** Small facts about splitting sequences, stated once and reused. */
module Seqs {

  lemma SplitLast<T>(t: seq<T>)
    requires |t| >= 1
    ensures t == t[..|t| - 1] + [t[|t| - 1]]
  {
  }

  lemma SplitLastTwo<T>(t: seq<T>)
    requires |t| >= 2
    ensures t == (t[..|t| - 2] + [t[|t| - 2]]) + [t[|t| - 1]]
  {
  }

  lemma TailOfCons<T>(h: T, xs: seq<T>, ys: seq<T>)
    ensures ([h] + xs + ys)[1..] == xs + ys
  {
  }

  /** Appending one element leaves the earlier elements where they were. */
  lemma PushPrefix<T>(xs: seq<T>, x: T)
    requires |xs| >= 1
    ensures (xs + [x])[..|xs| - 1] == xs[..|xs| - 1]
    ensures (xs + [x])[|xs| - 1] == xs[|xs| - 1] && (xs + [x])[|xs|] == x
  {
  }
}
