/** The generator that spreads a hashed value over a bloom signature (blutils.c): a Park-Miller
    generator in Schrage's form, kept in a file-scope variable and re-seeded for every value. */
module BloomRandom {
  import opened BloomWords

  newtype Int32 = x: int | -0x8000_0000 <= x < 0x8000_0000

  /** C's int32 is a uint32 reinterpreted in two's complement. */
  type UInt32 = x: nat | x < 0x1_0000_0000

  /** 2^31 - 1, the modulus of the generator. */
  const MODULUS: int := 0x7fff_ffff

  /** 7^5, its multiplier. */
  const MULTIPLIER: int := 16807

  /** C's integer division and remainder by a positive divisor: truncation toward zero. */
  function CDiv(a: int, b: int): int
    requires b > 0
  {
    if a >= 0 then a / b else -((-a) / b)
  }

  function CMod(a: int, b: int): (r: int)
    requires b > 0
    ensures -b < r < b
    ensures a >= 0 ==> r == a % b
  {
    a - b * CDiv(a, b)
  }

  function AsInt32(u: UInt32): (x: Int32)
    ensures x as int % 0x1_0000_0000 == u
  {
    if u < 0x8000_0000 then u as Int32 else (u - 0x1_0000_0000) as Int32
  }

  /** The state the generator moves to from s. */
  function Advance(s: int): (t: int)
    ensures 0 <= t < MODULUS
  {
    MULTIPLIER * s % MODULUS
  }

  /** The state that mySrand leaves behind, on every seed. */
  function SeedState(seed: UInt32): (s: int)
    ensures -MODULUS < s < MODULUS
  {
    CMod(AsInt32(seed) as int, 0x7fff_fffe) + 1
  }

  /** Bits of a number written out, for the `^` that mixes a hash with a column's first draw. */
  function Xor(a: nat, b: nat): nat
    decreases a + b
  {
    if a == 0 then b
    else if b == 0 then a
    else 2 * Xor(a / 2, b / 2) + (a % 2 + b % 2) % 2
  }

  /** The variable `next` and the two functions over it. Every int32 arithmetic step below stays in
      int32 from every state whatsoever, or the assignments to Int32 would not verify. */
  class Generator {
    var next: Int32

    constructor ()
      ensures next == 0
    {
      next := 0;
    }

    method MyRand() returns (r: Int32)
      modifies this
      ensures next as int == Advance(old(next) as int)
      ensures r == next - 1
    {
      var hi := CDiv(next as int, 127773) as Int32;
      var lo := CMod(next as int, 127773) as Int32;
      Schrage(next as int, hi as int, lo as int);
      var x := 16807 * lo - 2836 * hi;
      if x < 0 {
        x := x + 0x7fff_ffff;
      }
      next := x;
      r := x - 1;
    }

    method MySrand(seed: UInt32)
      modifies this
      ensures next as int == SeedState(seed)
    {
      next := AsInt32(seed);
      next := CMod(next as int, 0x7fff_fffe) as Int32 + 1;
    }
  }

  /** Schrage's decomposition: the two 31-bit products differ by a value within one modulus of zero
      that is congruent to the full product. */
  lemma {:induction false} Schrage(s: int, hi: int, lo: int)
    requires -0x8000_0000 <= s < 0x8000_0000
    requires hi == CDiv(s, 127773) && lo == CMod(s, 127773)
    ensures -MODULUS < 16807 * lo - 2836 * hi < MODULUS
    ensures -0x8000_0000 <= 16807 * lo < 0x8000_0000 && -0x8000_0000 <= 2836 * hi < 0x8000_0000
    ensures Advance(s) == var x := 16807 * lo - 2836 * hi; if x < 0 then x + MODULUS else x
  {
    var x := 16807 * lo - 2836 * hi;
    assert MULTIPLIER * s == MODULUS * hi + x;
    if x < 0 {
      ModUnique(MULTIPLIER * s, hi - 1, x + MODULUS);
    } else {
      ModUnique(MULTIPLIER * s, hi, x);
    }
  }

  lemma {:induction false} ModUnique(a: int, q: int, r: int)
    requires a == MODULUS * q + r && 0 <= r < MODULUS
    ensures a % MODULUS == r
  {
  }

  /** The generator never falls into its absorbing state 0 from a state that is not 0: the
      multiplier is invertible modulo 2^31 - 1. */
  lemma {:induction false} AdvanceNonZero(s: int)
    requires -MODULUS < s < MODULUS
    ensures Advance(s) == 0 <==> s == 0
  {
    if Advance(s) == 0 {
      var q := MULTIPLIER * s / MODULUS;
      assert MULTIPLIER * s == MODULUS * q;
      InvertMultiple(s, q);
    }
  }

  /** 16807 * 1407677000 == 11017 * MODULUS + 1, so a multiple of the modulus has only multiples as roots. */
  lemma {:induction false} InvertMultiple(s: int, q: int)
    requires -MODULUS < s < MODULUS && 16807 * s == 0x7fff_ffff * q
    ensures s == 0
  {
    assert 1407677000 * (16807 * s) == (11017 * 0x7fff_ffff + 1) * s;
    assert s == 0x7fff_ffff * (1407677000 * q - 11017 * s);
  }

  /** The comment in mySrand says its result lies in [1, 0x7ffffffe]. The remainder is taken of a
      signed value, so seeds from 2^31 up give states at or below 1; exactly two of them give the
      absorbing state 0. */
  lemma {:induction false} SeedStateZero(seed: UInt32)
    ensures SeedState(seed) == 0 <==> seed == 0xFFFF_FFFF || seed == 0x8000_0001
    ensures seed < 0x8000_0000 ==> 1 <= SeedState(seed) <= 0x7fff_fffe
  {
  }

  /** State after k calls of myRand. */
  function StateAfter(s: int, k: nat): int {
    if k == 0 then s else Advance(StateAfter(s, k - 1))
  }

  /** From a non-zero state, all later states lie in [1, 2^31 - 2], so every value drawn is in
      [0, 2^31 - 3]; from the zero state every value drawn is -1. */
  lemma {:induction false} DrawRange(s: int, k: nat)
    requires -MODULUS < s < MODULUS && k > 0
    ensures s != 0 ==> 0 <= StateAfter(s, k) - 1 <= 0x7fff_fffd
    ensures s == 0 ==> StateAfter(s, k) - 1 == -1
  {
    if k == 1 {
      assert StateAfter(s, 1) == Advance(StateAfter(s, 0)) == Advance(s);
      AdvanceNonZero(s);
    } else {
      DrawRange(s, k - 1);
      AdvanceNonZero(StateAfter(s, k - 1));
    }
  }

  /** Mixing is undone by mixing with the same value again. */
  lemma {:induction false} XorInvolutive(a: nat, b: nat)
    ensures Xor(Xor(a, b), b) == a
    decreases a + b
  {
    if b == 0 {
    } else if a == 0 {
      XorSelf(b);
    } else {
      XorInvolutive(a / 2, b / 2);
      XorHalves(a, b);
      XorHalves(Xor(a, b), b);
    }
  }

  lemma {:induction false} XorSelf(b: nat)
    ensures Xor(b, b) == 0
  {
    if b != 0 { XorSelf(b / 2); }
  }

  /** Xor acts on the last digit and on the rest separately. */
  lemma {:induction false} XorHalves(a: nat, b: nat)
    ensures Xor(a, b) / 2 == Xor(a / 2, b / 2)
    ensures Xor(a, b) % 2 == (a % 2 + b % 2) % 2
    ensures Xor(a, b) == 2 * Xor(a / 2, b / 2) + (a % 2 + b % 2) % 2
  {
  }

  lemma {:induction false} XorBound(a: nat, b: nat, n: nat, bound: nat)
    requires bound == ShiftOne(n) && a < bound && b < bound
    ensures Xor(a, b) < bound
    decreases n
  {
    if n > 0 { XorBound(a / 2, b / 2, n - 1, ShiftOne(n - 1)); XorHalves(a, b); }
  }

  lemma {:induction false} Pow32()
    ensures ShiftOne(32) == 0x1_0000_0000
  {
    assert ShiftOne(8) == 0x100;
    assert ShiftOne(16) == 0x1_0000;
    assert ShiftOne(24) == 0x100_0000;
  }

  /** `hashVal ^ myRand()` in uint32. */
  function Mix(hash: UInt32, draw: UInt32): (m: UInt32) {
    Pow32();
    XorBound(hash, draw, 32, 0x1_0000_0000);
    Xor(hash, draw)
  }
}
