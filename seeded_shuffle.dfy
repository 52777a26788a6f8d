/** `createSeed` and `shuffleArray`: a seed from the English name and the
    clock, and a Fisher-Yates shuffle driven by a linear congruential
    generator instead of `Math.random`. */
module SeededShuffle {
  import opened NameModel

  const Multiplier: int := 9301
  const Increment: int := 49297
  const Modulus: int := 233280

  /** `charCodeAt`: the code of a character. */
  function CharCode(c: char): nat {
    c as nat
  }

  /** The weighted sum `createSeed` accumulates: each character's code times
      its one-based position. */
  function WeightedCodeSum(s: string): nat {
    if s == [] then 0
    else WeightedCodeSum(s[..|s| - 1]) + CharCode(s[|s| - 1]) * |s|
  }

  /** The sum as the loop of `createSeed` reads it, front to back: the
      character at offset i is weighted by `w + i`. */
  function PositionWeightedSum(s: string, w: nat): nat
    decreases |s|
  {
    if s == [] then 0 else CharCode(s[0]) * w + PositionWeightedSum(s[1..], w + 1)
  }

  /** `createSeed(name)` with `Date.now()` supplied as `now`. */
  method CreateSeed(name: string, now: int) returns (seed: int)
    ensures seed == WeightedCodeSum(name) + now
    ensures seed >= now
  {
    seed := 0;
    var i := 0;
    while i < |name|
      invariant 0 <= i <= |name|
      invariant seed == WeightedCodeSum(name[..i])
      invariant seed >= 0
    {
      assert name[..i + 1][..i] == name[..i];
      seed := seed + CharCode(name[i]) * (i + 1);
      i := i + 1;
    }
    assert name[..|name|] == name;
    seed := seed + now;
  }

  /** Appending a character adds its code times its weight. */
  lemma {:induction false} PositionWeightedSnoc(s: string, c: char, w: nat)
    ensures PositionWeightedSum(s + [c], w) == PositionWeightedSum(s, w) + CharCode(c) * (w + |s|)
    decreases |s|
  {
    if s == [] {
      assert [c][1..] == [];
    } else {
      assert (s + [c])[1..] == s[1..] + [c];
      PositionWeightedSnoc(s[1..], c, w + 1);
    }
  }

  /** The sum `createSeed` is specified with, built from the back, is the
      front-to-back sum with weights starting at 1. */
  lemma {:induction false} WeightedCodeSumFromFront(s: string)
    ensures WeightedCodeSum(s) == PositionWeightedSum(s, 1)
    decreases |s|
  {
    if s != [] {
      var init, last := s[..|s| - 1], s[|s| - 1];
      WeightedCodeSumFromFront(init);
      PositionWeightedSnoc(init, last, 1);
      assert init + [last] == s;
    }
  }

  /** The quotient JavaScript's `%` is taken against: `a / m` truncated
      toward zero. */
  function JsQuotient(a: int, m: int): int
    requires m > 0
  {
    if a >= 0 then a / m else -((-a) / m)
  }

  /** `%` as JavaScript computes it: the remainder takes the sign of the
      dividend. */
  function JsRemainder(a: int, m: int): (r: int)
    requires m > 0
    ensures a >= 0 ==> 0 <= r < m
    ensures a < 0 ==> -m < r <= 0
    ensures a == m * JsQuotient(a, m) + r
  {
    if a >= 0 then a % m else -((-a) % m)
  }

  /** One state step of the generator. From a non-negative state the next
      state lies in [0, 233280). */
  function NextSeed(seed: int): (next: int)
    ensures seed >= 0 ==> 0 <= next < Modulus
  {
    JsRemainder(seed * Multiplier + Increment, Modulus)
  }

  /** The closure `random(max)` after it has advanced the state to
      `state`: `Math.floor(state / 233280 * max)`. The index is always in
      [0, max). */
  function ScaledIndex(state: int, max: nat): (k: nat)
    requires 0 <= state < Modulus && max > 0
    ensures k < max
  {
    RandomIndex(state as real / Modulus as real, max)
  }

  /** `[s[i], s[j]] = [s[j], s[i]]`. The shuffle only swaps positions
      inside the list (`ValidPicks`); outside it the list is left as is. */
  function Swap<T>(s: seq<T>, i: nat, j: nat): (r: seq<T>)
    ensures |r| == |s| && multiset(r) == multiset(s)
  {
    if i < |s| && j < |s| then s[i := s[j]][j := s[i]] else s
  }

  /** The partners of a run of the shuffle loop over positions n down to 1,
      with n = |picks|: `picks[k]` is the partner of position n - k, and it
      lies at or below that position. */
  predicate ValidPicks(picks: seq<nat>) {
    forall k :: 0 <= k < |picks| ==> picks[k] <= |picks| - k
  }

  /** The partners the generator chooses for positions i down to 1,
      starting from state `seed`: each step advances the state, then scales
      it to a position at or below the current one. */
  function Picks(seed: int, i: nat): (picks: seq<nat>)
    requires seed >= 0
    ensures |picks| == i
    decreases i
  {
    if i == 0 then []
    else
      var next := NextSeed(seed);
      [ScaledIndex(next, i + 1)] + Picks(next, i - 1)
  }

  /** Every partner the generator chooses lies at or below its position. */
  lemma {:induction false} PicksValid(seed: int, i: nat)
    requires seed >= 0
    ensures ValidPicks(Picks(seed, i))
    decreases i
  {
    if i > 0 {
      var next := NextSeed(seed);
      PicksValid(next, i - 1);
      var picks, rest := Picks(seed, i), Picks(next, i - 1);
      forall k | 0 <= k < |picks| ensures picks[k] <= |picks| - k {
        if k > 0 {
          assert picks[k] == rest[k - 1];
        }
      }
    }
  }

  /** The swaps of the shuffle loop: position |picks| with `picks[0]`, then
      the remaining positions down to 1 with the remaining partners. */
  function SwapDown<T>(s: seq<T>, picks: seq<nat>): seq<T>
    decreases picks
  {
    if picks == [] then s else SwapDown(Swap(s, |picks|, picks[0]), picks[1..])
  }

  /** The top position the loop starts from. */
  function Top<T>(s: seq<T>): nat {
    if |s| == 0 then 0 else |s| - 1
  }

  /** What `shuffleArray(s, seed)` returns. */
  function Shuffled<T>(s: seq<T>, seed: int): seq<T>
    requires seed >= 0
  {
    SwapDown(s, Picks(seed, Top(s)))
  }

  /** Swapping only reorders: the result is a permutation of the input,
      whatever partners are chosen. */
  lemma {:induction false} SwapDownPermutes<T>(s: seq<T>, picks: seq<nat>)
    ensures |SwapDown(s, picks)| == |s|
    ensures multiset(SwapDown(s, picks)) == multiset(s)
    decreases picks
  {
    if picks != [] {
      SwapDownPermutes(Swap(s, |picks|, picks[0]), picks[1..]);
    }
  }

  /** `shuffleArray` returns a permutation of its input. */
  lemma ShuffledPermutes<T>(items: seq<T>, seed: int)
    requires seed >= 0
    ensures |Shuffled(items, seed)| == |items|
    ensures multiset(Shuffled(items, seed)) == multiset(items)
  {
    SwapDownPermutes(items, Picks(seed, Top(items)));
  }

  /** One iteration of the shuffle loop: advance the state, pick the
      partner of position i, swap, and continue from i - 1. */
  lemma ShuffleStep<T>(s: seq<T>, i: nat, seed: int)
    requires 0 < i < |s| && seed >= 0
    ensures var next := NextSeed(seed);
            var j := ScaledIndex(next, i + 1);
            SwapDown(s, Picks(seed, i)) == SwapDown(Swap(s, i, j), Picks(next, i - 1))
  {
  }

  /** The swap loop of `shuffleArray`, on the copy: swap each position from
      the last down to 1 with a generator-chosen position at or below it.
      The array ends up holding `Shuffled` of what it held. */
  method ShuffleInPlace<T>(a: array<T>, seed: int)
    requires seed >= 0
    modifies a
    ensures a[..] == Shuffled(old(a[..]), seed)
  {
    ghost var target := Shuffled(a[..], seed);
    var state := seed;
    var i := a.Length - 1;
    while i > 0
      invariant -1 <= i < a.Length
      invariant state >= 0
      invariant SwapDown(a[..], Picks(state, if i < 0 then 0 else i)) == target
    {
      ghost var before, previous := a[..], state;
      ShuffleStep(before, i, previous);
      state := NextSeed(state);
      var j := ScaledIndex(state, i + 1);
      a[i], a[j] := a[j], a[i];
      assert a[..] == Swap(before, i, j);
      i := i - 1;
    }
  }

  /** `shuffleArray`: shuffle a copy of the input. The result is
      `Shuffled(items, seed)`, a permutation of the input, and the input
      itself is left as it was. */
  method ShuffleArray<T>(items: seq<T>, seed: int) returns (shuffled: seq<T>)
    requires seed >= 0
    ensures shuffled == Shuffled(items, seed)
    ensures |shuffled| == |items| && multiset(shuffled) == multiset(items)
  {
    var a := new T[|items|](k requires 0 <= k < |items| => items[k]);
    assert a[..] == items;
    ShuffleInPlace(a, seed);
    shuffled := a[..];
    ShuffledPermutes(items, seed);
  }
}
