/** The generator of hxlib/rand.c: Schrage's form of next := 16807 * next mod (2^31 - 1). */
module Rand {
  import opened CTypes

  const M: nat := 0x7fff_ffff
  const INVERSE: nat := 1407677000

  /** The new state, in 32-bit longs. */
  function NextState(value: U32): U32
  {
    var quotient, remainder := value / 127773, value % 127773;
    var t := 16807 * remainder - 2836 * quotient;
    if t <= 0 then t + M else t
  }

  predicate Seed(x: int) { 1 <= x < M }

  /** No product and no difference leaves the range of a signed 32-bit long, whatever the state. */
  lemma NoOverflow(value: U32)
    ensures var quotient, remainder := value / 127773, value % 127773;
      16807 * remainder < 0x8000_0000 && 2836 * quotient < 0x8000_0000
      && -0x8000_0000 <= 16807 * remainder - 2836 * quotient < 0x8000_0000
    ensures 1 <= NextState(value) <= M
  {
  }

  lemma ModUnique(a: int, q: int, r: int)
    requires a == q * M + r && 0 <= r < M
    ensures a % M == r
  {
  }

  lemma MulMod(k: int, x: int)
    ensures k * (x % M) % M == k * x % M
  {
    var q, r := x / M, x % M;
    var p, m := k * r / M, k * r % M;
    assert k * x == k * (q * M + r) == (k * q + p) * M + m;
    ModUnique(k * x, k * q + p, m);
  }

  /** One step multiplies by 16807, modulo 2^31 - 1; the residue 0 appears as 2^31 - 1. */
  lemma StepIsProduct(value: U32)
    ensures NextState(value) == if 16807 * value % M == 0 then M else 16807 * value % M
  {
    var quotient, remainder := value / 127773, value % 127773;
    var t := 16807 * remainder - 2836 * quotient;
    assert 16807 * value == quotient * M + t;
    NoOverflow(value);
    if t <= 0 {
      ModUnique(16807 * value, if t == 0 then quotient else quotient - 1, if t == 0 then 0 else t + M);
    } else {
      ModUnique(16807 * value, if t == M then quotient + 1 else quotient, if t == M then 0 else t);
    }
  }

  /** 16807 has an inverse modulo 2^31 - 1. */
  lemma Undo(x: int)
    ensures INVERSE * (16807 * x % M) % M == x % M
  {
    MulMod(INVERSE, 16807 * x);
    assert INVERSE * 16807 == 11017 * M + 1;
    var q, r := x / M, x % M;
    ModUnique(INVERSE * (16807 * x), 11017 * x + q, r);
  }

  /** The generator leaves the states 1 .. 2^31 - 2 exactly from the multiples of 2^31 - 1, where it stays for ever. */
  lemma StaysGood(value: U32)
    ensures Seed(NextState(value)) <==> value % M != 0
    ensures !Seed(NextState(value)) ==> NextState(value) == M && NextState(M) == M
  {
    StepIsProduct(value);
    ZeroOnlyFromZero(value);
    StepIsProduct(M);
    ZeroOnlyFromZero(M);
  }

  lemma ZeroOnlyFromZero(x: int)
    ensures 16807 * x % M == 0 <==> x % M == 0
  {
    Undo(x);
    MulMod(16807, x);
  }

  /** Different states have different successors. */
  lemma StepInjective(x: U32, y: U32)
    requires Seed(x) && Seed(y) && NextState(x) == NextState(y)
    ensures x == y
  {
    Recovered(x);
    Recovered(y);
  }

  lemma Recovered(x: U32)
    requires Seed(x)
    ensures INVERSE * (NextState(x) % M) % M == x
  {
    StepIsProduct(x);
    Undo(x);
  }

  // ---------------------------------------------------------------- whole runs

  function State(seed: U32, n: nat): U32 { if n == 0 then seed else NextState(State(seed, n - 1)) }

  function Power(n: nat): nat { if n == 0 then 1 else 16807 * Power(n - 1) }

  /** From a seed in 1 .. 2^31 - 2, the n-th state is 16807^n times the seed, modulo 2^31 - 1, and never 0. */
  lemma {:induction false} NthState(seed: U32, n: nat)
    requires Seed(seed)
    ensures State(seed, n) == Power(n) * seed % M && Seed(State(seed, n))
  {
    if n > 0 {
      NthState(seed, n - 1);
      NthStep(Power(n - 1), seed, State(seed, n - 1));
    }
  }

  lemma NthStep(p: nat, seed: nat, x: U32)
    requires x == p * seed % M && Seed(x)
    ensures NextState(x) == 16807 * p * seed % M && Seed(NextState(x))
  {
    StaysGood(x);
    StepIsProduct(x);
    var y := p * seed;
    MulMod(16807, y);
    assert 16807 * y == 16807 * p * seed;
  }

  /** The static state, and the calls. */
  class Generator {
    var next: U32

    constructor (seed: U32)
      ensures next == seed
    {
      next := seed;
    }

    method SRand(seed: U32)
      modifies this
      ensures next == seed
    {
      next := seed;
    }

    method Rand() returns (r: int)
      modifies this
      ensures next == NextState(old(next)) && r == next
    {
      var quotient, remainder := next / 127773, next % 127773;
      var t := 16807 * remainder - 2836 * quotient;
      NoOverflow(next);
      if t <= 0 {
        t := t + M;
      }
      next := t;
      r := next % 0x8000_0000;
    }
  }
}
