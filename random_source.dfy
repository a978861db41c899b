/**
 * The splittable pseudo-random source of src/random.rs, a wrapper over a
 * 64-bit PCG stream whose state is a position and an odd increment that
 * selects the stream.  The PCG output permutation and the 128-bit state
 * arithmetic are replaced by a plain deterministic step: what the engine
 * relies on is that draws are deterministic, lie in the requested range,
 * and that a split hands out a child that differs from its parent.
 */
module RandomSource {

  /** Outputs of the generator are u64 values, below 2^64. */
  const U64_LIMIT: nat := 0x1_0000_0000_0000_0000

  datatype Random = Random(state: nat, inc: nat)

  /** One raw draw: the advanced source and a u64 output.  Draws never change the stream selector. */
  function NextU64(r: Random): (res: (Random, nat))
    ensures res.1 < U64_LIMIT
    ensures res.0.inc == r.inc
  {
    (Random(r.state + r.inc, r.inc), r.state % U64_LIMIT)
  }

  /** `Random::u64_range`: a value in the half-open range [lo, hi); an empty range is a caller error. */
  function U64Range(r: Random, lo: nat, hi: nat): (v: nat)
    requires lo < hi
    ensures lo <= v < hi
  {
    lo + NextU64(r).1 % (hi - lo)
  }

  /**
   * `Random::split`: returns the advanced parent and the child.  The child's
   * state is perturbed by a fresh draw and its increment is the parent's
   * plus 2, so an odd increment stays odd and the child can never equal
   * the parent, before or after the split.
   */
  function Split(r: Random): (res: (Random, Random))
    ensures res.0.inc == r.inc && res.1.inc == r.inc + 2
    ensures r.inc % 2 == 1 ==> res.1.inc % 2 == 1
    ensures res.1 != res.0 && res.1 != r
  {
    var (next, growth) := NextU64(r);
    (next, Random(r.state + growth, r.inc + 2))
  }

  /** A stream selector PCG accepts: an odd increment. */
  predicate OddStream(r: Random)
  {
    r.inc % 2 == 1
  }

  /**
   * Repeated splits hand out different children: the parent advances on
   * every split, and on an odd stream the draws of two consecutive
   * positions cannot make the two children's states meet.
   */
  lemma SplitTwiceDiffers(r: Random)
    requires OddStream(r)
    ensures var (next, child1) := Split(r);
      var (last, child2) := Split(next);
      OddStream(next) && OddStream(last) && OddStream(child1) && OddStream(child2) &&
      child1 != child2 && child1 != next && child2 != last
  {
  }
}
