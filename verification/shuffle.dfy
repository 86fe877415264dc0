/**
 The playlist's `shuffle`: for every position `i` in turn, swap the element at
 `i` with the one at a position drawn uniformly from the whole sequence. The
 draws of `Math.random()` are supplied as a stream `random` of reals in [0, 1),
 draw `i` being the one taken at step `i`.
 */
module Shuffling {

  /** The position drawn at one step: the draw `x` scaled by the length and
      rounded down. */
  function RandomIndex(x: real, length: nat): (j: nat)
    requires 0.0 <= x < 1.0 && 0 < length
    ensures j < length
    ensures j as real <= x * length as real < j as real + 1.0
  {
    var n := length as real;
    assert 0.0 <= x * n;
    assert x * n < n by {
      assert n - x * n == (1.0 - x) * n;
      assert 0.0 < (1.0 - x) * n;
    }
    (x * n).Floor
  }

  /** Exchange the elements at positions `i` and `j` (the `temp` swap). */
  function Swap<T>(s: seq<T>, i: nat, j: nat): (r: seq<T>)
    requires i < |s| && j < |s|
    ensures |r| == |s|
    ensures r[i] == s[j] && r[j] == s[i]
    ensures forall k :: 0 <= k < |s| && k != i && k != j ==> r[k] == s[k]
    ensures multiset(r) == multiset(s)
  {
    s[i := s[j]][j := s[i]]
  }

  /** Every draw of the stream lies in [0, 1), as `Math.random()` promises. */
  ghost predicate ValidDraws(random: nat -> real)
  {
    forall i :: 0.0 <= random(i) < 1.0
  }

  /** One iteration of the shuffle loop: the element at `i` changes places
      with the one at the position drawn from draw `i`. */
  function ShuffleStep<T>(s: seq<T>, random: nat -> real, i: nat): (r: seq<T>)
    requires i < |s|
    requires ValidDraws(random)
    ensures |r| == |s|
    ensures multiset(r) == multiset(s)
  {
    Swap(s, i, RandomIndex(random(i), |s|))
  }

  /** The iterations of the shuffle loop from position `i` to the end. */
  function ShuffleFrom<T>(s: seq<T>, random: nat -> real, i: nat): (r: seq<T>)
    requires i <= |s|
    requires ValidDraws(random)
    ensures |r| == |s|
    ensures multiset(r) == multiset(s)
    decreases |s| - i
  {
    if i == |s| then s else ShuffleFrom(ShuffleStep(s, random, i), random, i + 1)
  }

  /** `shuffle(arr)`: returns the shuffled sequence, a permutation of the input. */
  method Shuffle<T>(s: seq<T>, random: nat -> real) returns (r: seq<T>)
    requires ValidDraws(random)
    ensures r == ShuffleFrom(s, random, 0)
    ensures |r| == |s|
    ensures multiset(r) == multiset(s)
  {
    r := s;
    var i := 0;
    while i < |r|
      invariant i <= |r| && |r| == |s|
      invariant ShuffleFrom(r, random, i) == ShuffleFrom(s, random, 0)
    {
      r := ShuffleStep(r, random, i);
      i := i + 1;
    }
  }

  /** Whatever the draws, the shuffled sequence holds the same elements as
      many times as the input, so every element of the input is still there. */
  lemma ShuffleKeepsElements<T>(s: seq<T>, random: nat -> real, x: T)
    requires ValidDraws(random)
    ensures x in ShuffleFrom(s, random, 0) <==> x in s
  {
    var r := ShuffleFrom(s, random, 0);
    assert x in r <==> multiset(r)[x] > 0;
    assert x in s <==> multiset(s)[x] > 0;
  }
}
