/** Bitwise "and" in two's complement, and masking with a power of two less one. */
module Bits {
  import opened Arithmetic

  function Pow2(k: nat): (p: nat)
    ensures p > 0
  {
    if k == 0 then 1 else 2 * Pow2(k - 1)
  }

  /** Bit by bit; the quotient rounds down, so a negative number has ones all the way up. */
  function And(a: int, b: nat): (r: nat)
    ensures r <= b
    decreases b
  {
    if b == 0 then 0 else (if a % 2 == 1 && b % 2 == 1 then 1 else 0) + 2 * And(a / 2, b / 2)
  }

  ghost predicate IsPowerOfTwo(n: int) {
    exists k: nat :: n == Pow2(k)
  }

  /** Masking with a power of two less one is the remainder, for negative numbers too. */
  lemma {:induction false} MaskIsMod(a: int, k: nat)
    ensures And(a, Pow2(k) - 1) == a % Pow2(k)
    decreases k
  {
    if k == 0 {
      DivMod(a, a, 0, 1);
    } else {
      hide And;
      var p := Pow2(k - 1);
      calc {
        And(a, Pow2(k) - 1);
        And(a, 2 * (p - 1) + 1);
        { AndOdd(a, p - 1); }
        a % 2 + 2 * And(a / 2, p - 1);
        { MaskIsMod(a / 2, k - 1); }
        a % 2 + 2 * (a / 2 % p);
        { DoubledMod(a, p); }
        a % (2 * p);
      }
    }
  }

  lemma AndOdd(a: int, b: nat)
    ensures And(a, 2 * b + 1) == a % 2 + 2 * And(a / 2, b)
  {
    assert (2 * b + 1) % 2 == 1 && (2 * b + 1) / 2 == b;
  }

  lemma DoubledMod(a: int, p: nat)
    requires p > 0
    ensures a % (2 * p) == a % 2 + 2 * (a / 2 % p)
  {
    var half := a / 2;
    var q, r := half / p, half % p;
    assert half == q * p + r;
    assert a == q * (2 * p) + (a % 2 + 2 * r);
    DivMod(a, q, a % 2 + 2 * r, 2 * p);
  }

  lemma MaskPowerOfTwo(a: int, n: nat)
    requires n > 0 && IsPowerOfTwo(n)
    ensures And(a, n - 1) == a % n
  {
    var k: nat :| n == Pow2(k);
    MaskIsMod(a, k);
  }

  lemma Doubled(n: nat)
    requires IsPowerOfTwo(n)
    ensures IsPowerOfTwo(2 * n)
  {
    var k: nat :| n == Pow2(k);
    assert 2 * n == Pow2(k + 1);
  }

  /** The least power of two that is not below `x`. */
  method NextPowerOfTwo(x: int) returns (power: nat)
    ensures IsPowerOfTwo(power) && power >= x && (power == 1 || power < 2 * x)
  {
    power := 1;
    assert Pow2(0) == 1;
    while power < x
      invariant power > 0 && IsPowerOfTwo(power) && (power == 1 || power < 2 * x)
      decreases x - power
    {
      Doubled(power);
      power := 2 * power;
    }
  }

  const LARGEST := 1_073_741_824

  lemma LargestIsPower()
    ensures Pow2(30) == LARGEST && Pow2(31) == 2 * LARGEST
  {
    assert Pow2(10) == 1024;
    assert Pow2(20) == 1024 * Pow2(10);
    assert Pow2(30) == 1024 * Pow2(20);
  }

  lemma {:induction false} PowMono(i: nat, j: nat)
    requires i <= j
    ensures Pow2(i) <= Pow2(j)
    decreases j
  {
    if i < j {
      PowMono(i, j - 1);
    }
  }

  /** A power of two is either at most the largest capacity or at least twice that. */
  lemma PowerAround(power: nat)
    requires IsPowerOfTwo(power)
    ensures power <= LARGEST || power >= 2 * LARGEST
    ensures 2 * power > LARGEST ==> power >= LARGEST
  {
    var k: nat :| power == Pow2(k);
    LargestIsPower();
    if k > 30 {
      PowMono(31, k);
    } else if k == 30 {
    } else {
      PowMono(k + 1, 30);
    }
  }
}
