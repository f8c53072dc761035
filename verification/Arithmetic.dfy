/** Facts about division that the solver does not find alone, and the division of C. */
module Arithmetic {

  lemma AtLeastOnce(k: int, n: int)
    requires n > 0
    ensures k >= 1 ==> k * n >= n
    ensures k <= -1 ==> k * n <= -n
  {
    if k >= 1 {
      assert (k - 1) * n >= 0;
    } else if k <= -1 {
      assert (-1 - k) * n >= 0;
    }
  }

  /** Quotient and remainder are unique. */
  lemma DivMod(a: int, q: int, r: int, n: int)
    requires 0 <= r < n && a == q * n + r
    ensures a / n == q && a % n == r
  {
    var p, t := a / n, a % n;
    assert a == p * n + t;
    assert (p - q) * n == p * n - q * n == r - t;
    AtLeastOnce(p - q, n);
  }

  /** The remainder of C, which takes the sign of the dividend. */
  function Remainder(a: int, b: int): int
    requires b > 0
  {
    if a >= 0 then a % b else -(-a % b)
  }

  /** The quotient of C, which rounds towards zero. */
  function Quotient(a: int, b: int): int
    requires b > 0
  {
    if a >= 0 then a / b else -(-a / b)
  }

  lemma QuotientRemainder(a: int, b: int)
    requires b > 0
    ensures a == Quotient(a, b) * b + Remainder(a, b) && -b < Remainder(a, b) < b
    ensures Remainder(a, b) < 0 ==> a < 0
    ensures Remainder(a, b) > 0 ==> a > 0
  {
    if a >= 0 {
      assert a == a / b * b + a % b;
    } else {
      var q, r := -a / b, -a % b;
      assert -a == q * b + r;
      assert a == -q * b - r;
    }
  }

  /** Adding the modulus to a negative remainder of C gives the mathematical one. */
  lemma Normalised(a: int, n: nat)
    requires n > 0
    ensures var r := Remainder(a, n); (if r < 0 then r + n else r) == a % n
  {
    QuotientRemainder(a, n);
    var q, r := Quotient(a, n), Remainder(a, n);
    if r < 0 {
      assert a == (q - 1) * n + (r + n);
      DivMod(a, q - 1, r + n, n);
    } else {
      DivMod(a, q, r, n);
    }
  }

  /** Reducing an intermediate sum changes nothing. */
  lemma SumMod(k: int, a: int, n: nat)
    requires n > 0
    ensures (k % n + a) % n == (k + a) % n
  {
    var p := k / n;
    var q, r := (k % n + a) / n, (k % n + a) % n;
    assert k == p * n + k % n;
    assert k % n + a == q * n + r;
    assert k + a == (p + q) * n + r;
    DivMod(k + a, p + q, r, n);
  }

  lemma MulMono(a: int, b: int, c: nat)
    requires a <= b
    ensures a * c <= b * c
  {
    assert (b - a) * c >= 0;
  }

  lemma DivBounds(a: int, d: int, low: int, high: int)
    requires d > 0 && low * d <= a <= high * d
    ensures low <= a / d <= high
  {
    var q := a / d;
    assert a == q * d + a % d;
    AtLeastOnce(low - q, d);
    AtLeastOnce(q - high, d);
    assert (low - q) * d == low * d - q * d && (q - high) * d == q * d - high * d;
  }

  lemma DivShrinks(a: nat, small: int, large: int)
    requires 0 < small <= large
    ensures a / small >= a / large
  {
    var q := a / large;
    assert a == q * large + a % large;
    MulMono(small, large, q);
    var p := a / small;
    assert a == p * small + a % small;
    AtLeastOnce(q - p, small);
    assert (q - p) * small == q * small - p * small;
  }

  lemma StrictDiv(a: nat, d: nat, bound: nat)
    requires d > 0 && a < bound * d
    ensures a / d < bound
  {
    var q := a / d;
    assert a == q * d + a % d;
    AtLeastOnce(bound - q, d);
    assert (bound - q) * d == bound * d - q * d > 0;
  }

  /** The guard of the growing containers: twice the capacity fits when the whole quotient is at least two. */
  lemma CanDouble(capacity: nat, max: nat)
    requires 0 < capacity <= max
    ensures 2 > max / capacity <==> 2 * capacity > max
  {
    if 2 * capacity <= max {
      DivBounds(max, capacity, 2, max);
    } else {
      StrictDiv(max, capacity, 2);
    }
  }
}
