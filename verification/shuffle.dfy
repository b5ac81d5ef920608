/** Fisher–Yates shuffle with the random source replaced by the sequence of
    positions it picks. */
module Shuffle {

  /** `draws` answers every call the shuffle makes on an array of length
      `len`: the k-th draw is taken at loop position i = len - 1 - k and,
      coming from `floor(random() * (i + 1))` with `random()` in [0, 1),
      lies in [0, i]. */
  predicate ValidDraws(draws: seq<int>, len: nat)
  {
    && |draws| == (if len == 0 then 0 else len - 1)
    && forall k :: 0 <= k < |draws| ==> 0 <= draws[k] <= len - 1 - k
  }

  /** Exchanges positions `i` and `j` (a no-op when they coincide). */
  function Swap<T>(a: seq<T>, i: nat, j: nat): (b: seq<T>)
    requires i < |a| && j < |a|
    ensures |b| == |a| && b[i] == a[j] && b[j] == a[i]
    ensures forall k :: 0 <= k < |a| && k != i && k != j ==> b[k] == a[k]
  {
    a[i := a[j]][j := a[i]]
  }

  lemma SwapPermutes<T>(a: seq<T>, i: nat, j: nat)
    requires i < |a| && j < |a|
    ensures multiset(Swap(a, i, j)) == multiset(a)
  {
  }

  /** The loop's steps at positions i, i - 1, ..., 1. */
  function ShuffleDown<T>(a: seq<T>, draws: seq<int>, i: int): seq<T>
    requires ValidDraws(draws, |a|) && i < |a|
    decreases i
  {
    if i <= 0 then a
    else ShuffleDown(Swap(a, i, draws[|a| - 1 - i]), draws, i - 1)
  }

  /** The shuffled copy of `a` that the draws select. */
  function Shuffled<T>(a: seq<T>, draws: seq<int>): seq<T>
    requires ValidDraws(draws, |a|)
  {
    ShuffleDown(a, draws, |a| - 1)
  }

  lemma {:induction false} ShuffleDownPermutes<T>(a: seq<T>, draws: seq<int>, i: int)
    requires ValidDraws(draws, |a|) && i < |a|
    ensures |ShuffleDown(a, draws, i)| == |a|
    ensures multiset(ShuffleDown(a, draws, i)) == multiset(a)
    decreases i
  {
    if i > 0 {
      var b := Swap(a, i, draws[|a| - 1 - i]);
      SwapPermutes(a, i, draws[|a| - 1 - i]);
      ShuffleDownPermutes(b, draws, i - 1);
    }
  }

  /** The steps never touch positions above the current one. */
  lemma {:induction false} ShuffleDownKeepsAbove<T>(a: seq<T>, draws: seq<int>, i: int)
    requires ValidDraws(draws, |a|) && i < |a|
    ensures |ShuffleDown(a, draws, i)| == |a|
    ensures i >= 0 ==> ShuffleDown(a, draws, i)[i + 1..] == a[i + 1..]
    decreases i
  {
    ShuffleDownPermutes(a, draws, i);
    if i > 0 {
      var b := Swap(a, i, draws[|a| - 1 - i]);
      ShuffleDownKeepsAbove(b, draws, i - 1);
      assert ShuffleDown(a, draws, i)[i..] == b[i..];
    }
  }

  /** The shuffle returns a rearrangement of its input: same length, same
      cards with the same multiplicities. */
  lemma ShuffledPermutes<T>(a: seq<T>, draws: seq<int>)
    requires ValidDraws(draws, |a|)
    ensures |Shuffled(a, draws)| == |a|
    ensures multiset(Shuffled(a, draws)) == multiset(a)
  {
    ShuffleDownPermutes(a, draws, |a| - 1);
  }

  /** Arrays of length 0 or 1 come back unchanged. */
  lemma ShortArraysUnchanged<T>(a: seq<T>, draws: seq<int>)
    requires ValidDraws(draws, |a|) && |a| <= 1
    ensures Shuffled(a, draws) == a
  {
  }

  /** The loop as written: a copy is taken (the argument is a value and stays
      as it was), then for i from the last position down to 1 position i is
      swapped with the drawn j in [0, i]. */
  method Shuffle<T>(arr: seq<T>, draws: seq<int>) returns (a: seq<T>)
    requires ValidDraws(draws, |arr|)
    ensures a == Shuffled(arr, draws)
    ensures |a| == |arr| && multiset(a) == multiset(arr)
  {
    a := arr;
    var i := |a| - 1;
    while i > 0
      invariant -1 <= i < |arr| && |a| == |arr|
      invariant ShuffleDown(a, draws, i) == Shuffled(arr, draws)
      decreases i
    {
      var j := draws[|arr| - 1 - i];
      a := a[i := a[j]][j := a[i]];
      i := i - 1;
    }
    ShuffledPermutes(arr, draws);
  }
}
