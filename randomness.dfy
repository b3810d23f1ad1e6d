/**
 * The pseudo-random generator the simulation draws from (`System.Random`).
 * Its algorithm is not part of this model: the value of each draw comes from
 * a `Sampler`, a function of the seed, the number of earlier draws and the
 * requested range, so that everything proved holds for any generator.
 */
module Randomness {
  import opened Wrappers
  import opened Exceptions
  import opened Machine

  /** The value of draw number `drawIndex` of the generator seeded with `seed`, for the range `[min, maxExclusive)`. */
  type Sampler = (int, nat, int, int) -> int

  /** A generator seeded with `seed` from which `draws` values have been taken. */
  datatype Random = Random(seed: int, draws: nat)

  /** A sampler that respects the range it is asked for, as `Random.Next` promises. */
  ghost predicate Sound(sampler: Sampler)
  {
    forall seed, k, lo, hi :: lo < hi ==> lo <= sampler(seed, k, lo, hi) < hi
  }

  /** `new Random(seed)`: a fresh generator. */
  function NewRandom(seed: int32): (g: Random)
    ensures g.draws == 0 && g.seed == seed
  {
    Random(seed, 0)
  }

  /**
   * `Random.Next(minValue, maxValue)`: ArgumentOutOfRangeException when the
   * minimum exceeds the maximum, `minValue` itself for an empty range, and a
   * sampled value otherwise; every successful call consumes one draw.
   */
  function Next(g: Random, lo: int32, hi: int32, sampler: Sampler): (r: Result<(int, Random), Exception>)
    ensures r.Err? <==> lo > hi
    ensures r.Err? ==> r.error == MinGreaterThanMax
    ensures r.Ok? ==> r.value.1 == Random(g.seed, g.draws + 1)
    ensures r.Ok? && lo == hi ==> r.value.0 == lo
  {
    if lo > hi then Err(MinGreaterThanMax)
    else if lo == hi then Ok((lo, Random(g.seed, g.draws + 1)))
    else Ok((sampler(g.seed, g.draws, lo, hi), Random(g.seed, g.draws + 1)))
  }

  /** A sound sampler's draws are the sampler's own values, within the requested range. */
  lemma NextInRange(g: Random, lo: int32, hi: int32, sampler: Sampler)
    requires Sound(sampler) && lo < hi
    ensures Next(g, lo, hi, sampler).Ok?
    ensures Next(g, lo, hi, sampler).value.0 == sampler(g.seed, g.draws, lo, hi)
    ensures lo <= Next(g, lo, hi, sampler).value.0 < hi
  {
  }
}
