/** The source of randomness the generator draws from (Go's math/rand).
    The generator relies only on the contract of `Intn`: a value in [0, n).
    The body is a stand-in 64-bit linear congruential step, not Go's
    generator; the generator's proofs never look at it. */
module Rand {

  class Source {
    /** Internal state of the stand-in generator. */
    var state: nat
    /** How many values have been drawn since seeding. */
    ghost var calls: nat

    /** rand.Seed(seed): the seed is supplied by the caller; the wall clock
        that main.go reads for it is not part of this model. */
    constructor (seed: int)
      ensures calls == 0
    {
      state := seed % 0x1_0000_0000_0000_0000;
      calls := 0;
    }

    /** rand.Intn(n): a draw in [0, n). Go panics when n <= 0, so callers
        must pass a positive bound. */
    method Intn(n: int) returns (r: int)
      requires n > 0
      modifies this
      ensures 0 <= r < n
      ensures calls == old(calls) + 1
    {
      calls := calls + 1;
      state := (state * 6364136223846793005 + 1442695040888963407) % 0x1_0000_0000_0000_0000;
      r := (state / 0x2_0000_0000) % n;
    }
  }
}
