/** The 64-bit xorshift generator that drives mine placement, and the
    Fisher-Yates shuffle it feeds (src/engine.rs, XorShift64 and
    fisher_yates_shuffle). */
module Prng {
  import opened Seqs

  /** Bound of a draw: a 64-bit output shifted right by one (its low bit
      dropped, its top bit cleared) stays below 2^63. */
  const UsizeDrawBound: nat := 0x8000_0000_0000_0000

  /** XorShift64::new: the all-zero state is a fixed point of the generator,
      so a zero seed is raised to one. */
  function Seeded(seed: bv64): (state: bv64)
    ensures state != 0
    ensures seed != 0 ==> state == seed
  {
    if seed < 1 then 1 else seed
  }

  /** One step of the generator: xor with itself shifted 13 left, then 7
      right, then 17 left. */
  function NextU64(state: bv64): (next: bv64)
    ensures state != 0 ==> next != 0
  {
    var a := state ^ (state << 13);
    var b := a ^ (a >> 7);
    b ^ (b << 17)
  }

  /** next_usize: a fresh 64-bit output shifted right by one, which drops its
      low bit and clears its top bit, so the value is below 2^63. usize is
      taken to be 64 bits wide. Returns the value and the new generator
      state. */
  function NextUsize(state: bv64): (r: (nat, bv64))
    ensures r.0 < UsizeDrawBound
    ensures r.1 == NextU64(state)
  {
    var next := NextU64(state);
    ((next >> 1) as nat, next)
  }

  /** The index drawn at step i of the shuffle: next_usize() % (i + 1). */
  function DrawIndex(state: bv64, i: nat): (r: (nat, bv64))
    ensures r.0 <= i
    ensures r.1 == NextU64(state)
  {
    var (v, next) := NextUsize(state);
    (v % (i + 1), next)
  }

  /** arr.swap(i, j). */
  function Swap<T>(s: seq<T>, i: nat, j: nat): (r: seq<T>)
    requires i < |s| && j < |s|
    ensures |r| == |s| && multiset(r) == multiset(s)
    ensures r[i] == s[j] && r[j] == s[i]
    ensures forall k :: 0 <= k < |s| && k != i && k != j ==> r[k] == s[k]
  {
    s[i := s[j]][j := s[i]]
  }

  /** The shuffle steps i, i-1, ..., 1 applied to s from the given state,
      returning the shuffled sequence and the final generator state. */
  function ShuffleFrom<T>(s: seq<T>, i: nat, state: bv64): (r: (seq<T>, bv64))
    requires i < |s|
    ensures |r.0| == |s| && multiset(r.0) == multiset(s)
    decreases i
  {
    if i == 0 then (s, state)
    else
      var (j, next) := DrawIndex(state, i);
      ShuffleFrom(Swap(s, i, j), i - 1, next)
  }

  /** fisher_yates_shuffle: for i from n-1 down to 1, swap position i with a
      drawn position j in [0, i]. Returns the shuffled sequence and the
      generator state after the last draw. */
  function Shuffle<T>(s: seq<T>, state: bv64): (r: (seq<T>, bv64))
    ensures |r.0| == |s| && multiset(r.0) == multiset(s)
  {
    if |s| == 0 then (s, state) else ShuffleFrom(s, |s| - 1, state)
  }

  /** A shuffle of a sequence without repetitions has none either, and holds
      exactly the same elements. */
  lemma ShufflePreservesElements<T>(s: seq<T>, state: bv64)
    requires Distinct(s)
    ensures Distinct(Shuffle(s, state).0)
    ensures forall x :: x in Shuffle(s, state).0 <==> x in s
  {
    var t := Shuffle(s, state).0;
    DistinctPermutation(s, t);
    forall x
      ensures x in t <==> x in s
    {
      assert x in t <==> x in multiset(t);
      assert x in s <==> x in multiset(s);
    }
  }
}
