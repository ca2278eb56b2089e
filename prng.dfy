/**
 * The seeded generator of the frontend watermark (class PMRNG in
 * LSBStrategy.js): a 32-bit rolling hash turns the secret key into a seed,
 * a linear congruential generator modulo 2^31 produces the draws, and a
 * Fisher-Yates shuffle driven by those draws permutes an array in place.
 *
 * The draws are computed with exact integers; see README for how this
 * idealises JavaScript's double arithmetic.
 */
module Prng {

  /** A UTF-16 code unit, what `charCodeAt` returns. */
  type CodeUnit = c: int | 0 <= c < 0x1_0000

  const M := 0x8000_0000
  const A := 1103515245
  const C := 12345
  const TWO32 := 0x1_0000_0000

  /** ECMAScript ToInt32: x modulo 2^32, read as a two's-complement value. */
  function ToInt32(x: int): (r: int)
    ensures -0x8000_0000 <= r < 0x8000_0000
    ensures (r - x) % TWO32 == 0
  {
    var r := (x + 0x8000_0000) % TWO32 - 0x8000_0000;
    assert r - x == -TWO32 * ((x + 0x8000_0000) / TWO32);
    r
  }

  /** Values that differ by a multiple of 2^32 have the same 32-bit reading. */
  lemma ToInt32Congruent(x: int, y: int, k: int)
    requires x - y == TWO32 * k
    ensures ToInt32(x) == ToInt32(y)
  {
    assert x + 0x8000_0000 == (y + 0x8000_0000) + TWO32 * k;
  }

  /** One round of `stringToSeed`: `(hash << 5) - hash + char`, then `hash & hash`. */
  function HashStep(hash: int, c: CodeUnit): int
  {
    ToInt32(ToInt32(hash * 32) - hash + c)
  }

  /** The hash of a key: HashStep over its code units, starting from 0. */
  function Hash(key: seq<CodeUnit>): (h: int)
    ensures -0x8000_0000 <= h < 0x8000_0000
  {
    if key == [] then 0 else HashStep(Hash(key[..|key| - 1]), key[|key| - 1])
  }

  /** The seed of a key: `Math.abs(hash)`, which is 2^31 for the hash -2^31. */
  function SeedOf(key: seq<CodeUnit>): (seed: nat)
    ensures seed == Hash(key) || seed == -Hash(key)
    ensures seed <= M
    ensures seed == M <==> Hash(key) == -M
  {
    var h := Hash(key);
    if h < 0 then -h else h
  }

  /** Each round is h := int32(31 * h + c): the shift-and-subtract is multiplication by 31. */
  lemma HashStepIs31(hash: int, c: CodeUnit)
    ensures HashStep(hash, c) == ToInt32(31 * hash + c)
  {
    var s := ToInt32(hash * 32);
    var k := (s - hash * 32) / TWO32;
    assert s - hash * 32 == TWO32 * k;
    ToInt32Congruent(s - hash + c, 31 * hash + c, k);
  }

  /** The polynomial sum of c_i * 31^(n-1-i) over the code units, with unbounded integers. */
  function Poly(key: seq<CodeUnit>): int
  {
    if key == [] then 0 else 31 * Poly(key[..|key| - 1]) + key[|key| - 1]
  }

  /** The hash is the polynomial hash of the key reduced to a signed 32-bit value. */
  lemma {:induction false} HashIsPoly(key: seq<CodeUnit>)
    ensures Hash(key) == ToInt32(Poly(key))
  {
    if key != [] {
      var p, c := key[..|key| - 1], key[|key| - 1];
      HashIsPoly(p);
      HashStepIs31(Hash(p), c);
      var h, q := Hash(p), Poly(p);
      var k := (h - q) / TWO32;
      assert h - q == TWO32 * k;
      assert (31 * h + c) - (31 * q + c) == TWO32 * (31 * k);
      ToInt32Congruent(31 * h + c, 31 * q + c, 31 * k);
    }
  }

  /** `stringToSeed`: the rolling hash over the key, then its absolute value. */
  method StringToSeed(key: seq<CodeUnit>) returns (seed: int)
    ensures seed == SeedOf(key)
    ensures 0 <= seed <= M
  {
    var hash := 0;
    var i := 0;
    while i < |key|
      invariant 0 <= i <= |key|
      invariant hash == Hash(key[..i])
    {
      assert key[..i + 1][..i] == key[..i];
      var c := key[i];
      var shifted := ToInt32(hash * 32);
      hash := shifted - hash + c;
      hash := ToInt32(hash);
      i := i + 1;
    }
    assert key[..i] == key;
    seed := if hash < 0 then -hash else hash;
  }

  /** One draw: the state after `a * state + c` modulo m. */
  function Next(state: int): (r: nat)
    ensures r < M
  {
    (A * state + C) % M
  }

  /** The state after k draws. */
  function Iterate(state: int, k: nat): int
    decreases k
  {
    if k == 0 then state else Iterate(Next(state), k - 1)
  }

  /** s with positions i and j exchanged. */
  function Swap<T>(s: seq<T>, i: nat, j: nat): (r: seq<T>)
    requires i < |s| && j < |s|
    ensures |r| == |s| && r[i] == s[j] && r[j] == s[i]
    ensures forall k :: 0 <= k < |s| && k != i && k != j ==> r[k] == s[k]
  {
    s[i := s[j]][j := s[i]]
  }

  /**
   * The shuffle loop from `currentIndex == cur` down to 0, started in state
   * `state`: draw, take the draw modulo cur, step cur down, swap.
   */
  function ShuffleFrom<T>(s: seq<T>, cur: nat, state: int): (r: seq<T>)
    requires cur <= |s|
    ensures |r| == |s|
    decreases cur
  {
    if cur == 0 then s
    else
      var next := Next(state);
      ShuffleFrom(Swap(s, cur - 1, next % cur), cur - 1, next)
  }

  /** The whole of `shuffle` on s, from generator state `state`. */
  function Shuffled<T>(s: seq<T>, state: int): (r: seq<T>)
    ensures |r| == |s|
  {
    ShuffleFrom(s, |s|, state)
  }

  class Pmrng {
    var state: int

    /**
     * `new PMRNG(seed)`: a non-empty key seeds the generator through
     * `stringToSeed`; an empty one takes `Math.floor(Math.random() * (m - 1))`,
     * passed in here as `entropy`.
     */
    constructor (key: seq<CodeUnit>, entropy: nat)
      requires entropy < M - 1
      ensures state == if key != [] then SeedOf(key) else entropy
      ensures 0 <= state <= M
    {
      if key != [] {
        var seed := StringToSeed(key);
        state := seed;
      } else {
        state := entropy;
      }
    }

    /** `nextInt`: advances the state by one draw and returns it. */
    method NextInt() returns (r: int)
      modifies this
      ensures state == Next(old(state)) && r == state
      ensures 0 <= r < M
    {
      state := (A * state + C) % M;
      return state;
    }

    /**
     * `shuffle`: Fisher-Yates driven by the generator. The index drawn for
     * position currentIndex - 1 is taken modulo currentIndex before the
     * decrement, so it lies in [0, currentIndex - 1] and every swap is in
     * bounds. An array of length n consumes exactly n draws.
     */
    method Shuffle<T>(a: array<T>)
      modifies this, a
      ensures a[..] == Shuffled(old(a[..]), old(state))
      ensures state == Iterate(old(state), a.Length)
      ensures multiset(a[..]) == multiset(old(a[..]))
    {
      ghost var target := Shuffled(a[..], state);
      ghost var finalState := Iterate(state, a.Length);
      ghost var start := a[..];
      var currentIndex := a.Length;
      while currentIndex != 0
        invariant 0 <= currentIndex <= a.Length
        invariant ShuffleFrom(a[..], currentIndex, state) == target
        invariant Iterate(state, currentIndex) == finalState
        invariant multiset(a[..]) == multiset(start)
        decreases currentIndex
      {
        var draw := NextInt();
        var randomIndex := draw % currentIndex;
        currentIndex := currentIndex - 1;
        ghost var before := a[..];
        var temporaryValue := a[currentIndex];
        a[currentIndex] := a[randomIndex];
        a[randomIndex] := temporaryValue;
        assert a[..] == Swap(before, currentIndex, randomIndex);
        SwapPermutes(before, currentIndex, randomIndex);
      }
    }
  }

  /** Swapping two positions keeps the multiset of elements. */
  lemma SwapPermutes<T>(s: seq<T>, i: nat, j: nat)
    requires i < |s| && j < |s|
    ensures multiset(Swap(s, i, j)) == multiset(s)
  {
    var t := s[i := s[j]];
    assert multiset(t) == multiset(s) - multiset{s[i]} + multiset{s[j]};
    assert multiset(t[j := s[i]]) == multiset(t) - multiset{t[j]} + multiset{s[i]};
  }

  /** The shuffle permutes its input: the multiset of elements is unchanged. */
  lemma {:induction false} ShufflePermutes<T>(s: seq<T>, cur: nat, state: int)
    requires cur <= |s|
    ensures multiset(ShuffleFrom(s, cur, state)) == multiset(s)
    decreases cur
  {
    if cur > 0 {
      var next := Next(state);
      var t := Swap(s, cur - 1, next % cur);
      assert ShuffleFrom(s, cur, state) == ShuffleFrom(t, cur - 1, next);
      SwapPermutes(s, cur - 1, next % cur);
      ShufflePermutes(t, cur - 1, next);
    }
  }

  /** The indices 0..n-1 in order, as the frontend fills its `Uint32Array`. */
  function Identity(n: nat): (s: seq<int>)
    ensures |s| == n && forall i :: 0 <= i < n ==> s[i] == i
  {
    seq(n, i => i)
  }

  /** s holds each of 0..n-1 exactly once. */
  predicate Bijection(s: seq<int>, n: nat)
  {
    && |s| == n
    && (forall i :: 0 <= i < n ==> 0 <= s[i] < n)
    && (forall i, j :: 0 <= i < j < n ==> s[i] != s[j])
    && (forall v :: 0 <= v < n ==> v in s)
  }

  /** Distinct values in [0, n): what a swap preserves. */
  predicate Injective(s: seq<int>, n: nat)
  {
    && (forall i :: 0 <= i < |s| ==> 0 <= s[i] < n)
    && (forall i, j :: 0 <= i < j < |s| ==> s[i] != s[j])
  }

  /** A swap keeps the values distinct and in range. */
  lemma SwapInjective(s: seq<int>, n: nat, a: nat, b: nat)
    requires a < |s| && b < |s| && Injective(s, n)
    ensures Injective(Swap(s, a, b), n)
  {
    var t := Swap(s, a, b);
    forall i, j | 0 <= i < j < |t| ensures t[i] != t[j] {
      var i' := if i == a then b else if i == b then a else i;
      var j' := if j == a then b else if j == b then a else j;
      assert t[i] == s[i'] && t[j] == s[j'];
      if i' > j' {
        assert s[j'] != s[i'];
      }
    }
    forall i | 0 <= i < |t| ensures 0 <= t[i] < n {
      var i' := if i == a then b else if i == b then a else i;
      assert t[i] == s[i'];
    }
  }

  lemma {:induction false} ShuffleInjective(s: seq<int>, n: nat, cur: nat, state: int)
    requires cur <= |s| && Injective(s, n)
    ensures Injective(ShuffleFrom(s, cur, state), n)
    decreases cur
  {
    if cur > 0 {
      var next := Next(state);
      SwapInjective(s, n, cur - 1, next % cur);
      ShuffleInjective(Swap(s, cur - 1, next % cur), n, cur - 1, next);
    }
  }

  /** Shuffling the identity indices gives a bijection of [0, n), whatever the state. */
  lemma ShuffleBijection(n: nat, state: int)
    ensures Bijection(Shuffled(Identity(n), state), n)
  {
    var id := Identity(n);
    var r := Shuffled(id, state);
    ShuffleInjective(id, n, n, state);
    ShufflePermutes(id, n, state);
    forall v | 0 <= v < n ensures v in r {
      assert id[v] == v;
      assert v in multiset(id);
      assert v in multiset(r);
    }
  }

  /** An empty array is left alone and draws nothing. */
  lemma ShuffleEmpty<T>(state: int)
    ensures Shuffled<T>([], state) == [] && Iterate(state, 0) == state
  {
  }
}
