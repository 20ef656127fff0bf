/** The kiosk's Fisher-Yates `shuffle`. The random index drawn at step `i` is
    handed in as `js[i]`; every choice with `js[i] <= i` is a value the
    kiosk's random source can produce. */
module FisherYates {
  import opened Seqs

  /** `js` supplies a legal random index for every step of a shuffle of `n`
      elements. */
  predicate ValidChoices(js: seq<nat>, n: nat) {
    |js| >= n && forall i :: 0 <= i < n ==> js[i] <= i
  }

  /** Exchange positions `i` and `j`. */
  function Swap<T>(a: seq<T>, i: nat, j: nat): (r: seq<T>)
    requires i < |a| && j < |a|
    ensures |r| == |a|
    ensures multiset(r) == multiset(a)
  {
    a[i := a[j]][j := a[i]]
  }

  /** The steps `i`, `i - 1`, ..., `1` of the shuffle, applied to `a`. */
  function ShuffleSteps<T>(a: seq<T>, js: seq<nat>, i: nat): (r: seq<T>)
    requires i == 0 || i < |a|
    requires ValidChoices(js, |a|)
    ensures |r| == |a|
    ensures multiset(r) == multiset(a)
    decreases i
  {
    if i == 0 then a else ShuffleSteps(Swap(a, i, js[i]), js, i - 1)
  }

  /** `shuffle`: a permutation of `a`, determined by the random choices. */
  function Shuffle<T>(a: seq<T>, js: seq<nat>): (r: seq<T>)
    requires ValidChoices(js, |a|)
    ensures |r| == |a|
    ensures multiset(r) == multiset(a)
  {
    ShuffleSteps(a, js, if |a| == 0 then 0 else |a| - 1)
  }

  /** The shuffle as the kiosk writes it: a copy of the input, then a loop
      swapping position `i` with a random earlier-or-equal position, from the
      last position down to position 1. */
  method ShuffleLoop<T>(arr: seq<T>, js: seq<nat>) returns (a: seq<T>)
    requires ValidChoices(js, |arr|)
    ensures a == Shuffle(arr, js)
  {
    a := arr;
    var i := |arr| - 1;
    while i > 0
      invariant -1 <= i < |arr|
      invariant |a| == |arr|
      invariant ShuffleSteps(a, js, if i < 0 then 0 else i) == Shuffle(arr, js)
      decreases i
    {
      var j := js[i];
      a := a[i := a[j]][j := a[i]];
      i := i - 1;
    }
  }

  /** A permutation of a sequence without repeats has no repeats. */
  lemma PermutationKeepsDistinct<T>(a: seq<T>, b: seq<T>)
    requires multiset(a) == multiset(b)
    requires Distinct(a)
    ensures Distinct(b)
  {
    forall i, j | 0 <= i < j < |b|
      ensures b[i] != b[j]
    {
      if b[i] == b[j] {
        RepeatCount(b, i, j);
        DistinctCount(a, b[i]);
        assert false;
      }
    }
  }
}
