/** The minimal standard generator of Park and Miller (pseudorand.c). */
module ParkMiller {

  import opened Arith

  const MULTIPLIER: nat := 16807
  const MODULUS: int := 0x7fff_ffff
  const K1: int := 127773     // MODULUS / MULTIPLIER
  const K2: int := 2836       // MODULUS % MULTIPLIER
  const INVERSE: int := 1407677000

  predicate Seed(s: int) { 1 <= s <= MODULUS - 1 }

  /** What one call does to the seed. */
  function Next(s: int): int { MULTIPLIER * s % MODULUS }

  // ----- Modular arithmetic

  /** The multiplier has an inverse, so the step can be undone. */
  lemma Undo(s: int, a: int, b: int)
    requires Seed(s) && a * b == 11017 * MODULUS + 1
    ensures b * (a * s % MODULUS) % MODULUS == s
  {
    MulMod(b, a * s, MODULUS);
    assert b * (a * s) == (a * b) * s == MODULUS * (11017 * s) + s;
    ModIs(b * (a * s), MODULUS, 11017 * s, s);
  }

  lemma NonZero(s: int, a: int, b: int)
    requires Seed(s) && a * b == 11017 * MODULUS + 1
    ensures Seed(a * s % MODULUS)
  {
    Undo(s, a, b);
    assert b * 0 % MODULUS == 0;
  }

  function Previous(s: int): int { INVERSE * s % MODULUS }

  /** The step is a bijection on the seeds. */
  lemma StepBijective(s: int)
    requires Seed(s)
    ensures Seed(Next(s)) && Seed(Previous(s)) && Previous(Next(s)) == s && Next(Previous(s)) == s
  {
    assert MULTIPLIER * INVERSE == 11017 * MODULUS + 1;
    NonZero(s, MULTIPLIER, INVERSE);
    NonZero(s, INVERSE, MULTIPLIER);
    Undo(s, MULTIPLIER, INVERSE);
    Undo(s, INVERSE, MULTIPLIER);
  }

  /** Schrage's split gives the step, within 32 signed bits all the way. */
  lemma Schrage(s: int)
    requires Seed(s)
    ensures var hi, lo := s / K1, s % K1;
            var tmp := MULTIPLIER * lo - K2 * hi;
            && Int32(MULTIPLIER * lo) && Int32(K2 * hi) && Int32(tmp) && (tmp <= 0 ==> Int32(tmp + MODULUS))
            && Next(s) == if tmp <= 0 then tmp + MODULUS else tmp
  {
    StepBijective(s);
    var hi, lo := s / K1, s % K1;
    var tmp := MULTIPLIER * lo - K2 * hi;
    assert MULTIPLIER * K1 + K2 == MODULUS;
    assert MULTIPLIER * s == MODULUS * hi + tmp;
    if 0 <= tmp {
      ModIs(MULTIPLIER * s, MODULUS, hi, tmp);
    } else {
      ModIs(MULTIPLIER * s, MODULUS, hi - 1, tmp + MODULUS);
    }
  }

  // ----- Runs

  /** The seed after n calls. */
  function After(s: int, n: nat): int { if n == 0 then s else Next(After(s, n - 1)) }

  lemma {:induction false} AfterIs(s: int, n: nat)
    requires Seed(s)
    ensures Seed(After(s, n)) && After(s, n) == Power(MULTIPLIER, n) * s % MODULUS
  {
    if n > 0 {
      AfterIs(s, n - 1);
      StepBijective(After(s, n - 1));
      MulMod(MULTIPLIER, Power(MULTIPLIER, n - 1) * s, MODULUS);
      assert MULTIPLIER * (Power(MULTIPLIER, n - 1) * s) == Power(MULTIPLIER, n) * s;
    } else {
      ModIs(s, MODULUS, 0, s);
    }
  }

  class Pseudorand {
    var seed: int

    constructor (s: int)
      ensures seed == s
    {
      seed := s;
    }

    /** pseudorand_random. */
    method Random() returns (r: nat)
      requires Seed(seed)
      modifies this
      ensures Seed(seed) && seed == Next(old(seed)) && r == seed - 1 <= RandMax()
    {
      Schrage(seed);
      StepBijective(seed);
      var hi, lo := seed / K1, seed % K1;
      var tmp := MULTIPLIER * lo - K2 * hi;
      if tmp <= 0 {
        tmp := tmp + MODULUS;
      }
      seed := tmp;
      r := seed - 1;
    }

    /** n calls in a row. */
    method Draw(n: nat) returns (rs: seq<nat>)
      requires Seed(seed)
      modifies this
      ensures Seed(seed) && seed == After(old(seed), n) && |rs| == n
      ensures forall i :: 0 <= i < n ==> rs[i] == After(old(seed), i + 1) - 1 <= RandMax()
    {
      rs := [];
      var i := 0;
      while i < n
        invariant 0 <= i <= n && Seed(seed) && seed == After(old(seed), i) && |rs| == i
        invariant forall j :: 0 <= j < i ==> rs[j] == After(old(seed), j + 1) - 1 <= RandMax()
      {
        var r := Random();
        rs := rs + [r];
        i := i + 1;
      }
    }
  }

  /** pseudorand_randmax. */
  function RandMax(): int { MODULUS - 2 }

  /** The bound is tight: some seed makes the call return it. */
  lemma RandMaxReached()
    ensures Seed(Previous(MODULUS - 1)) && Next(Previous(MODULUS - 1)) - 1 == RandMax()
  {
    StepBijective(MODULUS - 1);
  }
}
