/** Unbounded-integer powers and arithmetic modulo a positive integer.

    Dafny's `%` on `int` with a positive divisor always yields a value in
    [0, m), which is exactly what Python's `%` yields for a positive modulus,
    so `a % m` below stands for Python's `a % m` without any adjustment.
 */
module ModArith {

  /** b to the power e over the unbounded integers. */
  function Pow(b: int, e: nat): int
    decreases e
  {
    if e == 0 then 1 else b * Pow(b, e - 1)
  }

  lemma {:induction false} PowAdd(b: int, e1: nat, e2: nat)
    ensures Pow(b, e1 + e2) == Pow(b, e1) * Pow(b, e2)
    decreases e1
  {
    if e1 > 0 {
      PowAdd(b, e1 - 1, e2);
      calc {
        Pow(b, e1 + e2);
        b * Pow(b, e1 - 1 + e2);
        b * (Pow(b, e1 - 1) * Pow(b, e2));
        (b * Pow(b, e1 - 1)) * Pow(b, e2);
      }
    }
  }

  lemma {:induction false} PowMul(a: int, b: int, e: nat)
    ensures Pow(a * b, e) == Pow(a, e) * Pow(b, e)
    decreases e
  {
    if e > 0 {
      PowMul(a, b, e - 1);
      MulSwap(a, b, Pow(a, e - 1), Pow(b, e - 1));
    }
  }

  lemma MulSwap(a: int, b: int, x: int, y: int)
    ensures (a * b) * (x * y) == (a * x) * (b * y)
  {
  }

  lemma MulRotate(x: int, y: int, z: int)
    ensures x * y * z == y * (z * x)
  {
  }

  /** One multiplication peeled off at the top end instead of the bottom. */
  lemma PowSucc(b: int, e: nat)
    ensures Pow(b, e + 1) == Pow(b, e) * b
  {
    PowAdd(b, e, 1);
  }

  lemma {:induction false} PowOne(e: nat)
    ensures Pow(1, e) == 1
    decreases e
  {
    if e > 0 { PowOne(e - 1); }
  }

  lemma PowZero(e: nat)
    requires e > 0
    ensures Pow(0, e) == 0
  {
  }

  // ---------------------------------------------------------------------
  // Congruences
  // ---------------------------------------------------------------------

  lemma MulSign(t: int, m: int)
    requires m > 0
    ensures t >= 1 ==> t * m >= m
    ensures t <= -1 ==> t * m <= -m
  {
  }

  /** Adding a multiple of m does not change the remainder. */
  lemma ModMultipleAdd(k: int, m: int, x: int)
    requires m > 0
    ensures (k * m + x) % m == x % m
  {
    var y := k * m + x;
    var t := k + x / m - y / m;
    assert y == (y / m) * m + y % m;
    assert x == (x / m) * m + x % m;
    assert y % m - x % m == t * m;
    MulSign(t, m);
  }

  /** A number already in [0, m) is its own remainder. */
  lemma ModSmall(x: int, m: int)
    requires 0 <= x < m
    ensures x % m == x
  {
    assert x == (x / m) * m + x % m;
    MulSign(x / m, m);
  }

  lemma ModOfMultiple(k: int, m: int)
    requires m > 0
    ensures (k * m) % m == 0
  {
    ModMultipleAdd(k, m, 0);
  }

  /** A number with remainder 0 is a multiple. */
  lemma MultipleOfMod(x: int, m: int)
    requires m > 0 && x % m == 0
    ensures x == (x / m) * m
  {
  }

  lemma ModMod(x: int, m: int)
    requires m > 0
    ensures (x % m) % m == x % m
  {
    ModMultipleAdd(x / m, m, x % m);
  }

  /** Two numbers are congruent exactly when their difference is a multiple. */
  lemma ModEqIffDiff(a: int, b: int, m: int)
    requires m > 0
    ensures a % m == b % m <==> (a - b) % m == 0
  {
    if a % m == b % m {
      assert a - b == (a / m - b / m) * m;
      ModOfMultiple(a / m - b / m, m);
    }
    if (a - b) % m == 0 {
      MultipleOfMod(a - b, m);
      ModMultipleAdd((a - b) / m, m, b);
    }
  }

  lemma ModAddLeft(a: int, b: int, m: int)
    requires m > 0
    ensures (a + b) % m == (a % m + b) % m
  {
    ModMultipleAdd(a / m, m, a % m + b);
  }

  lemma ModAddRight(a: int, b: int, m: int)
    requires m > 0
    ensures (a + b) % m == (a + b % m) % m
  {
    ModMultipleAdd(b / m, m, a + b % m);
  }

  lemma ModSubRight(a: int, b: int, m: int)
    requires m > 0
    ensures (a - b) % m == (a + (-b) % m) % m
  {
    ModAddRight(a, -b, m);
  }

  lemma ModMulLeft(a: int, b: int, m: int)
    requires m > 0
    ensures (a * b) % m == ((a % m) * b) % m
  {
    var q := a / m;
    assert a * b == (q * b) * m + (a % m) * b;
    ModMultipleAdd(q * b, m, (a % m) * b);
  }

  /** Sums of congruent numbers are congruent. */
  lemma ModAdd(a: int, b: int, c: int, d: int, m: int)
    requires m > 0 && a % m == c % m && b % m == d % m
    ensures (a + b) % m == (c + d) % m
  {
    calc {
      (a + b) % m;
      { ModAddLeft(a, b, m); }
      (a % m + b) % m;
      (c % m + b) % m;
      { ModAddLeft(c, b, m); }
      (b + c) % m;
      { ModAddLeft(b, c, m); }
      (b % m + c) % m;
      (d % m + c) % m;
      { ModAddLeft(d, c, m); }
      (c + d) % m;
    }
  }

  /** Differences of congruent numbers are congruent. */
  lemma ModSub(a: int, b: int, c: int, d: int, m: int)
    requires m > 0 && a % m == c % m && b % m == d % m
    ensures (a - b) % m == (c - d) % m
  {
    ModNeg(b, d, m);
    ModAdd(a, -b, c, -d, m);
  }

  lemma ModNeg(a: int, c: int, m: int)
    requires m > 0 && a % m == c % m
    ensures (-a) % m == (-c) % m
  {
    ModEqIffDiff(a, c, m);
    ModNegZero(a - c, m);
    assert -(a - c) == -a - -c;
    ModEqIffDiff(-a, -c, m);
  }

  lemma ModNegZero(x: int, m: int)
    requires m > 0 && x % m == 0
    ensures (-x) % m == 0
  {
    MultipleOfMod(x, m);
    var t := x / m;
    NegTimes(t, m);
    ModOfMultiple(-t, m);
  }

  lemma NegTimes(t: int, m: int)
    ensures (-t) * m == -(t * m)
  {
  }

  /** Products of congruent numbers are congruent. */
  lemma ModMul(a: int, b: int, c: int, d: int, m: int)
    requires m > 0 && a % m == c % m && b % m == d % m
    ensures (a * b) % m == (c * d) % m
  {
    calc {
      (a * b) % m;
      { ModMulLeft(a, b, m); }
      ((a % m) * b) % m;
      ((c % m) * b) % m;
      { ModMulLeft(c, b, m); }
      (b * c) % m;
      { ModMulLeft(b, c, m); }
      ((b % m) * c) % m;
      ((d % m) * c) % m;
      { ModMulLeft(d, c, m); }
      (c * d) % m;
    }
  }

  /** Raising congruent bases to the same power gives congruent results. */
  lemma {:induction false} ModPowBase(a: int, c: int, e: nat, m: int)
    requires m > 0 && a % m == c % m
    ensures Pow(a, e) % m == Pow(c, e) % m
    decreases e
  {
    if e > 0 {
      ModPowBase(a, c, e - 1, m);
      ModMul(a, Pow(a, e - 1), c, Pow(c, e - 1), m);
    }
  }

  // ---------------------------------------------------------------------
  // Python's three-argument pow
  // ---------------------------------------------------------------------

  /** Python's `pow(b, e, m)` for a positive modulus m and e >= 0, computed by
      square-and-multiply: the result is b^e reduced modulo m, a value in [0, m). */
  function ModPow(b: int, e: nat, m: int): (r: int)
    requires m > 0
    ensures r == Pow(b, e) % m
    ensures 0 <= r < m
    decreases e
  {
    if e == 0 then
      1 % m
    else if e % 2 == 0 then
      SquareStep(b, e, m);
      ModPow(b * b % m, e / 2, m)
    else
      OddStep(b, ModPow(b, e - 1, m), e, m);
      (b * ModPow(b, e - 1, m)) % m
  }

  /** The odd step of ModPow: multiplying b by b^(e-1) reduced modulo m gives b^e modulo m. */
  lemma OddStep(b: int, rest: int, e: nat, m: int)
    requires m > 0 && e > 0 && rest == Pow(b, e - 1) % m
    ensures (b * rest) % m == Pow(b, e) % m
  {
    ModMod(Pow(b, e - 1), m);
    ModMul(b, rest, b, Pow(b, e - 1), m);
  }

  /** The even step of ModPow: (b*b mod m)^(e/2) and b^e agree modulo m. */
  lemma SquareStep(b: int, e: nat, m: int)
    requires m > 0 && e % 2 == 0
    ensures Pow(b * b % m, e / 2) % m == Pow(b, e) % m
  {
    ModMod(b * b, m);
    ModPowBase(b * b % m, b * b, e / 2, m);
    PowMul(b, b, e / 2);
    PowAdd(b, e / 2, e / 2);
  }
}
