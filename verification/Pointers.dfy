/** The hash of a pointer, and what a masked bucket index makes of it. */
module Pointers {
  import opened Arithmetic
  import opened Bits

  const MULTIPLIER := 0x9e3779b97f4a7c15
  const ADDRESSES := 0x1_0000_0000_0000_0000

  /** The address times an odd number, in 64 bits. */
  function PointerHash(address: nat): (hash: nat)
    ensures hash < ADDRESSES
  {
    address * MULTIPLIER % ADDRESSES
  }

  lemma DifferenceMod(a: int, b: int, n: nat)
    requires n > 0
    ensures a % n == b % n <==> (a - b) % n == 0
  {
    var p, q, t := a / n, b / n, (a - b) / n;
    assert a == p * n + a % n && b == q * n + b % n && a - b == t * n + (a - b) % n;
    if a % n == b % n {
      assert a - b == (p - q) * n;
      DivMod(a - b, p - q, 0, n);
    }
    if (a - b) % n == 0 {
      assert a == (q + t) * n + b % n;
      DivMod(a, q + t, b % n, n);
    }
  }

  lemma ModOfMultiple(x: int, n: nat, c: nat)
    requires n > 0 && c > 0 && n * c > 0
    ensures x % (n * c) % n == x % n
  {
    var q, r := x / (n * c), x % (n * c);
    assert x == q * (n * c) + r && q * (n * c) == (q * c) * n;
    DivMod(x - r, q * c, 0, n);
    DifferenceMod(x, r, n);
  }

  lemma {:induction false} Pow2Sum(i: nat, j: nat)
    ensures Pow2(i + j) == Pow2(i) * Pow2(j)
    decreases j
  {
    if j > 0 {
      Pow2Sum(i, j - 1);
      assert Pow2(i) * (2 * Pow2(j - 1)) == 2 * (Pow2(i) * Pow2(j - 1));
    }
  }

  lemma EvenMod(e: int, p: nat)
    requires p > 0
    ensures 2 * e % (2 * p) == 0 <==> e % p == 0
  {
    var q, t := e / p, 2 * e / (2 * p);
    assert e == q * p + e % p && 2 * e == t * (2 * p) + 2 * e % (2 * p);
    if e % p == 0 {
      assert 2 * e == q * (2 * p);
      DivMod(2 * e, q, 0, 2 * p);
    }
    if 2 * e % (2 * p) == 0 {
      assert t * (2 * p) == 2 * (t * p);
      DivMod(e, t, 0, p);
    }
  }

  lemma OddTimes(d: int, m: int)
    requires m % 2 == 1
    ensures d * m % 2 == d % 2
  {
    var n := m / 2;
    assert m == 2 * n + 1;
    assert d * m == 2 * (d * n) + d;
  }

  lemma UnitPower(d: int)
    ensures d % Pow2(0) == 0
  {
  }

  lemma EvenPower(k: nat)
    requires k > 0
    ensures Pow2(k) == 2 * Pow2(k - 1)
  {
  }

  /** An odd factor makes no difference to divisibility by a power of two. */
  lemma {:induction false} OddFactor(d: int, m: int, k: nat)
    requires m % 2 == 1
    ensures d * m % Pow2(k) == 0 <==> d % Pow2(k) == 0
    decreases k
  {
    hide Pow2;
    if k == 0 {
      UnitPower(d);
      UnitPower(d * m);
    } else {
      EvenPower(k);
      OddTimes(d, m);
      if d % 2 == 0 {
        assert d == 2 * (d / 2);
        HalvedFactor(d / 2, m, Pow2(k - 1));
        OddFactor(d / 2, m, k - 1);
      } else {
        ModOfMultiple(d, 2, Pow2(k - 1));
        ModOfMultiple(d * m, 2, Pow2(k - 1));
      }
    }
  }

  lemma HalvedFactor(e: int, m: int, p: nat)
    requires p > 0
    ensures 2 * e * m % (2 * p) == 0 <==> e * m % p == 0
    ensures 2 * e % (2 * p) == 0 <==> e % p == 0
  {
    EvenMod(e, p);
    EvenMod(e * m, p);
    assert 2 * e * m == 2 * (e * m);
  }

  /** Two addresses share a bucket exactly when they agree modulo the number of buckets. */
  lemma SameBucketByAddress(a: nat, b: nat, k: nat)
    requires k <= 64
    ensures And(PointerHash(a), Pow2(k) - 1) == And(PointerHash(b), Pow2(k) - 1) <==> a % Pow2(k) == b % Pow2(k)
  {
    hide Pow2;
    MaskIsMod(PointerHash(a), k);
    MaskIsMod(PointerHash(b), k);
    HashLowBits(a, k);
    HashLowBits(b, k);
    DifferenceMod(a * MULTIPLIER, b * MULTIPLIER, Pow2(k));
    DifferenceMod(a, b, Pow2(k));
    assert a * MULTIPLIER - b * MULTIPLIER == (a - b) * MULTIPLIER;
    OddFactor(a - b, MULTIPLIER, k);
  }

  lemma HashLowBits(a: nat, k: nat)
    requires k <= 64
    ensures PointerHash(a) % Pow2(k) == a * MULTIPLIER % Pow2(k)
  {
    hide Pow2;
    AddressBits();
    Pow2Sum(k, 64 - k);
    ModOfMultiple(a * MULTIPLIER, Pow2(k), Pow2(64 - k));
  }

  lemma AddressBits()
    ensures Pow2(64) == ADDRESSES
  {
    LargestIsPower();
    hide Pow2;
    Pow2Sum(31, 31);
    Pow2Sum(62, 2);
    assert Pow2(2) == 4 by {
      SmallPowers();
    }
  }

  lemma SmallPowers()
    ensures Pow2(2) == 4 && Pow2(4) == 16
  {
  }
}
