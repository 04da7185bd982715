/**
 * The benchmark's pseudo-random generator (src/rnbench.c:85-103): a 15-bit
 * linear-congruential generator whose whole state is one `int` register,
 * `rnd_state`, shared by the scheduler and every kernel.
 *
 * The pure functions describe the generator as a state-to-state step; the
 * class `Rng` is the register itself and its three operations.
 */
module Prng {
  import opened BitOps

  const Multiplier: int := 214013
  const Increment: int := 2531011
  /** `rnd_max`, (1 << 15) - 1: the mask applied to every new state. */
  const RndMax: int := 32767
  const Modulus: int := RndMax + 1

  /**
   * One step of the generator: the new state, which is also the value drawn.
   * The source computes `(state * 214013 + 2531011) & 0x7FFF` on a 32-bit
   * `int`; `WrapThenMask` shows that this is the Euclidean remainder modulo
   * 32768 of the exact value, whatever the 32-bit overflow does to it.
   */
  function Step(s: int): (r: int)
    ensures 0 <= r <= RndMax
  {
    (s * Multiplier + Increment) % Modulus
  }

  /** The state after `n` draws starting from state `s`. */
  function StepN(s: int, n: nat): int
  {
    if n == 0 then s else Step(StepN(s, n - 1))
  }

  /**
   * The value `rnd_get_int_range(from, to)` returns when the register holds
   * `s` before the call. The drawn value is never negative and `to - from` is
   * positive, so C's truncating `%` agrees with Dafny's.
   */
  function Range(s: int, from: int, to: int): (v: int)
    requires from < to
    ensures from <= v < to
  {
    from + Step(s) % (to - from)
  }

  /**
   * Wrapping the exact value to 32 bits and then keeping its low 15 bits
   * (`& 0x7FFF`, that is the remainder modulo 2^15 of the unsigned word)
   * gives the remainder modulo 2^15 of the exact value.
   */
  lemma WrapThenMask(x: int)
    ensures (x % Word32Bound) % Modulus == x % Modulus
  {
    var q := x / Word32Bound;
    var u := x % Word32Bound;
    assert x == q * Word32Bound + u;
    assert q * Word32Bound == (q * 0x20000) * Modulus;
    ModulusShift(u, q * 0x20000);
  }

  /** Adding a multiple of the modulus does not change the remainder. */
  lemma ModulusShift(u: int, k: int)
    ensures (k * Modulus + u) % Modulus == u % Modulus
  {
    var r := u % Modulus;
    var d := u / Modulus;
    assert u == d * Modulus + r;
    assert k * Modulus + u == (k + d) * Modulus + r;
  }

  /** Draws compose: `m` draws followed by `n` draws are `m + n` draws. */
  lemma {:induction false} StepNAdd(s: int, m: nat, n: nat)
    ensures StepN(StepN(s, m), n) == StepN(s, m + n)
  {
    if n > 0 {
      StepNAdd(s, m, n - 1);
    }
  }

  /** After at least one draw the state is a 15-bit value. */
  lemma StepNBounded(s: int, n: nat)
    requires n >= 1
    ensures 0 <= StepN(s, n) <= RndMax
  {
  }

  /** The first values drawn after seeding with 2137, the scheduler's seed. */
  lemma SeededSequence()
    ensures StepN(2137, 1) == 10680
    ensures StepN(2137, 2) == 411
    ensures StepN(2137, 3) == 17906
    ensures StepN(2137, 4) == 5357
  {
  }

  /** The register `rnd_state` with `rnd_init`, `rnd_get_int` and `rnd_get_int_range`. */
  class Rng {
    var state: int

    /** `static int rnd_state = 0;` */
    constructor ()
      ensures state == 0
    {
      state := 0;
    }

    /** `rnd_init`: any seed is accepted as it is. */
    method Init(seed: int)
      modifies this
      ensures state == seed
    {
      state := seed;
    }

    /** `rnd_get_int`: one step, through the 32-bit wrap-around and the mask. */
    method GetInt() returns (v: int)
      modifies this
      ensures state == Step(old(state))
      ensures v == state && 0 <= v <= RndMax
    {
      var wrapped := (state * Multiplier + Increment) % Word32Bound;
      WrapThenMask(state * Multiplier + Increment);
      state := wrapped % Modulus;
      v := state;
    }

    /** `rnd_get_int_range`: exactly one draw, reduced into [from, to). */
    method GetIntRange(from: int, to: int) returns (v: int)
      requires from < to
      modifies this
      ensures state == Step(old(state))
      ensures v == Range(old(state), from, to)
      ensures from <= v < to
    {
      var range := to - from;
      var r := GetInt();
      v := from + r % range;
    }
  }
}
