/** The seeded generator of the benchmarks: mulberry32, which the comparison gate repeats under another name. */
module Mulberry32 {
  import opened RandomDraws

  function Step(state: bv32): bv32
  {
    state + 0x6d2b_79f5
  }

  /** What the generator makes of a state: the numerator of a fraction of 2^32. */
  function Bits(state: bv32): Word
  {
    var mixed := (state ^ (state >> 15)) * (1 | state);
    var again := (mixed + (mixed ^ (mixed >> 7)) * (61 | mixed)) ^ mixed;
    ToWord(again ^ (again >> 14))
  }

  function After(state: bv32, draws: nat): bv32
  {
    if draws == 0 then state else Step(After(state, draws - 1))
  }

  lemma {:induction false} AfterStep(state: bv32, n: nat)
    ensures After(Step(state), n) == After(state, n + 1)
  {
    if n > 0 { AfterStep(state, n - 1); }
  }

  function DrawAt(state: bv32, i: nat): Word
  {
    Bits(After(state, i + 1))
  }

  function Stream(seed: bv32): Draws
  {
    (i: nat) => DrawAt(seed, i)
  }

  ghost predicate Matches(state: bv32, draws: Draws, drawn: nat, i: nat)
  {
    draws(drawn + i) == DrawAt(state, i)
  }

  /** From a state on, the generator draws what the list holds after the given number of draws. */
  ghost predicate Follows(state: bv32, draws: Draws, drawn: nat)
  {
    forall i: nat :: Matches(state, draws, drawn, i)
  }

  lemma FollowsStep(state: bv32, draws: Draws, drawn: nat)
    requires Follows(state, draws, drawn)
    ensures draws(drawn) == Bits(Step(state)) && Follows(Step(state), draws, drawn + 1)
  {
    AfterStep(state, 0);
    assert Matches(state, draws, drawn, 0);
    var next, used := Step(state), drawn + 1;
    forall i: nat
      ensures Matches(next, draws, used, i)
    {
      AfterStep(state, i + 1);
      assert Matches(state, draws, drawn, i + 1);
    }
  }

  class SeededRandom {
    var state: bv32
    ghost const draws: Draws
    ghost var drawn: nat

    ghost predicate Valid()
      reads this
    {
      Follows(state, draws, drawn)
    }

    constructor (seed: bv32)
      ensures Valid() && draws == Stream(seed) && drawn == 0
    {
      state, draws, drawn := seed, Stream(seed), 0;
    }

    method Next() returns (bits: Word)
      requires Valid()
      modifies this
      ensures Valid() && drawn == old(drawn) + 1 && bits == draws(old(drawn))
    {
      FollowsStep(state, draws, drawn);
      state := Step(state);
      bits := Bits(state);
      drawn := drawn + 1;
    }
  }
}
