/** The Park-Miller "minimal standard" generator of sample_client/sample_client.c, computed with
    Schrage's method so that no intermediate value leaves a signed 32-bit word. */
module ParkMiller {

  const A: int := 16807
  const M: int := 2147483647
  const Q: int := 127773
  const R: int := 2836

  type Seed = s: int | 1 <= s < 2147483647 witness 1

  predicate FitsInt32(x: int) {
    -0x8000_0000 <= x < 0x8000_0000
  }

  class Generator {
    var seed: Seed

    /** The static initialiser. */
    constructor ()
      ensures seed == 1
    {
      seed := 1;
    }

    /** One draw. The source works with whatever long it was seeded with; the draws are meant for 1..M-1. */
    method PMrand() returns (r: Seed)
      modifies this
      ensures r == seed == A * old(seed) % M
    {
      SchrageIsExact(seed);
      var hi, lo := seed / Q, seed % Q;
      var test := A * lo - R * hi;
      if test > 0 {
        seed := test;
      } else {
        seed := test + M;
      }
      return seed;
    }
  }

  /** Schrage's quantities for a seed: the quotient, the remainder, and the difference that replaces A * s. */
  function Test(s: int): int {
    A * (s % Q) - R * (s / Q)
  }

  /** Every product and the difference fit a 32-bit int, the difference is never zero, and the corrected
      difference is exactly A * s mod M, again in 1..M-1. */
  lemma {:induction false} SchrageIsExact(s: Seed)
    ensures FitsInt32(A * (s % Q)) && FitsInt32(R * (s / Q)) && FitsInt32(Test(s))
    ensures Test(s) != 0
    ensures Test(s) <= 0 ==> FitsInt32(Test(s) + M)
    ensures (if Test(s) > 0 then Test(s) else Test(s) + M) == A * s % M
    ensures 1 <= A * s % M < M
  {
    var hi, lo, t := s / Q, s % Q, Test(s);
    assert s == Q * hi + lo && 0 <= hi <= A && 0 <= lo < Q;
    assert t == A * s - hi * M;
    if t == 0 {
      ProductNotMultiple(s, hi);
      assert false;
    }
    if t > 0 {
      ModularUnique(A * s, hi, t);
    } else {
      ModularUnique(A * s, hi - 1, t + M);
    }
  }

  lemma {:induction false} ModularUnique(x: int, k: int, r: int)
    requires x == k * M + r && 0 <= r < M
    ensures x % M == r
  {
    var k' := x / M;
    assert (k - k') * M == x % M - r;
  }

  /** 1407677000 inverts A modulo M, so no product A * s is a multiple of M. */
  lemma {:induction false} ProductNotMultiple(s: Seed, k: int)
    ensures A * s != k * M
  {
    var n := 1407677000 * k - 11017 * s;
    assert A * s == k * M ==> s == n * M;
  }

  /** No two seeds share a successor: a run never merges into another and never stops moving for want of values. */
  lemma {:induction false} DrawsInjective(s: Seed, t: Seed)
    requires A * s % M == A * t % M
    ensures s == t
  {
    var k := A * s / M - A * t / M;
    assert A * s - A * t == k * M;
    var n := 1407677000 * k - 11017 * (s - t);
    assert s - t == n * M;
  }

  function Power(n: nat): int {
    if n == 0 then 1 else A * Power(n - 1)
  }

  /** The seed after n draws. */
  function Draws(s: Seed, n: nat): Seed {
    if n == 0 then s else
      var d := Draws(s, n - 1);
      SchrageIsExact(d);
      A * d % M
  }

  /** After n draws from s the seed is A^n * s mod M; it stays in 1..M-1 for ever. */
  lemma {:induction false} DrawsClosedForm(s: Seed, n: nat)
    ensures Draws(s, n) == Power(n) * s % M
  {
    if n == 0 {
      ModularUnique(s, 0, s);
    } else {
      DrawsClosedForm(s, n - 1);
      var x, d := Power(n - 1) * s, Draws(s, n - 1);
      SchrageIsExact(d);
      var k := x / M;
      assert x == k * M + d;
      assert Power(n) * s == A * x;
      assert A * x == (A * k) * M + A * d;
      ModularUnique(A * x, A * k + A * d / M, A * d % M);
    }
  }

  /** Distinct seeds stay distinct however long both run. */
  lemma {:induction false} RunsNeverMerge(s: Seed, t: Seed, n: nat)
    requires s != t
    ensures Draws(s, n) != Draws(t, n)
  {
    if n > 0 {
      RunsNeverMerge(s, t, n - 1);
      if Draws(s, n) == Draws(t, n) {
        DrawsInjective(Draws(s, n - 1), Draws(t, n - 1));
        assert false;
      }
    }
  }
}
