/** Primes and Fermat's little theorem.

    The shuffle arithmetic computes multiplicative inverses as x^(N-2) mod N,
    which is only an inverse when N is prime. This module proves the theorem
    that justifies it, for every prime: if p is prime and p does not divide x,
    then x^(p-1) mod p == 1. The proof goes through the binomial theorem:
    p divides every inner binomial coefficient C(p, k), hence
    (x + 1)^p == x^p + 1 (mod p), hence x^p == x (mod p) by induction on x,
    and Euclid's lemma cancels the factor x.
 */
module Fermat {
  import opened ModArith

  predicate Divides(d: int, x: int)
  {
    d != 0 && x % d == 0
  }

  /** p is a prime: greater than 1, with no divisor strictly between 1 and p. */
  ghost predicate IsPrime(p: int)
  {
    p > 1 && forall d :: 1 < d < p ==> !Divides(d, p)
  }

  /** Euclid's lemma for a prime p and a factor a in (0, p), by descent on a:
      with p == q*a + r and 0 < r < a, p also divides r*b. */
  lemma {:induction false} EuclidBelow(p: int, a: int, b: int)
    requires IsPrime(p) && 0 < a < p && (a * b) % p == 0
    ensures b % p == 0
    decreases a
  {
    if a > 1 {
      assert !Divides(a, p);
      var q, r := p / a, p % a;
      assert p == q * a + r && 0 < r < a;
      MultipleOfMod(a * b, p);
      var t := (a * b) / p;
      EuclidStep(p, a, b, q, r, t);
      ModOfMultiple(b - q * t, p);
      EuclidBelow(p, r, b);
    }
  }

  /** The arithmetic of one descent step of EuclidBelow, on plain numbers. */
  lemma EuclidStep(p: int, a: int, b: int, q: int, r: int, t: int)
    requires p == q * a + r && a * b == t * p
    ensures r * b == (b - q * t) * p
  {
    calc {
      r * b;
      (p - q * a) * b;
      p * b - q * (a * b);
      p * b - q * (t * p);
      (b - q * t) * p;
    }
  }

  /** Euclid's lemma: a prime that divides a product divides one of the factors. */
  lemma Euclid(p: int, a: int, b: int)
    requires IsPrime(p) && (a * b) % p == 0 && a % p != 0
    ensures b % p == 0
  {
    ModMulLeft(a, b, p);
    EuclidBelow(p, a % p, b);
  }

  // ---------------------------------------------------------------------
  // Binomial coefficients
  // ---------------------------------------------------------------------

  /** C(n, k) by Pascal's rule. */
  function Binom(n: nat, k: nat): nat
  {
    if k == 0 then 1 else if n == 0 then 0 else Binom(n - 1, k - 1) + Binom(n - 1, k)
  }

  lemma {:induction false} BinomAbove(n: nat, k: nat)
    requires k > n
    ensures Binom(n, k) == 0
    decreases n
  {
    if n > 0 {
      BinomAbove(n - 1, k - 1);
      BinomAbove(n - 1, k);
    }
  }

  lemma {:induction false} BinomDiagonal(n: nat)
    ensures Binom(n, n) == 1
    decreases n
  {
    if n > 0 {
      BinomDiagonal(n - 1);
      BinomAbove(n - 1, n);
    }
  }

  /** The absorption identity k * C(n, k) == n * C(n-1, k-1). */
  lemma {:induction false} Absorption(n: nat, k: nat)
    requires 1 <= k && 1 <= n
    ensures k * Binom(n, k) == n * Binom(n - 1, k - 1)
    decreases n
  {
    if n == 1 {
      if k > 1 {
        BinomAbove(0, k - 1);
        BinomAbove(0, k);
      }
    } else if k == 1 {
      Absorption(n - 1, 1);
    } else {
      Absorption(n - 1, k - 1);
      Absorption(n - 1, k);
      var a, b := Binom(n - 1, k - 1), Binom(n - 1, k);
      var c, d := Binom(n - 2, k - 2), Binom(n - 2, k - 1);
      assert Binom(n, k) == a + b;
      assert a == c + d;
      AbsorptionStep(n, k, a, b, c, d);
    }
  }

  /** The arithmetic of the inductive step of Absorption, on plain numbers. */
  lemma AbsorptionStep(n: int, k: int, a: int, b: int, c: int, d: int)
    requires a == c + d && (k - 1) * a == (n - 1) * c && k * b == (n - 1) * d
    ensures k * (a + b) == n * a
  {
    calc {
      k * (a + b);
      (k - 1) * a + a + k * b;
      (n - 1) * c + a + (n - 1) * d;
      (n - 1) * (c + d) + a;
    }
  }

  /** A prime p divides every binomial coefficient C(p, k) with 0 < k < p. */
  lemma PrimeDividesBinom(p: nat, k: nat)
    requires IsPrime(p) && 0 < k < p
    ensures Binom(p, k) % p == 0
  {
    var c, b := Binom(p, k), Binom(p - 1, k - 1);
    assert k * c == b * p by {
      Absorption(p, k);
    }
    assert (k * c) % p == 0 by {
      ModOfMultiple(b, p);
    }
    assert k % p != 0 by {
      ModSmall(k, p);
    }
    Euclid(p, k, c);
  }

  /** The partial binomial sum  sum_{k < m} C(n, k) * x^k. */
  function BinomSum(n: nat, x: int, m: nat): int
  {
    if m == 0 then 0 else BinomSum(n, x, m - 1) + Binom(n, m - 1) * Pow(x, m - 1)
  }

  /** Pascal's rule lifted to the partial sums. */
  lemma {:induction false} PascalSum(n: nat, x: int, m: nat)
    ensures BinomSum(n + 1, x, m + 1) == x * BinomSum(n, x, m) + BinomSum(n, x, m + 1)
    decreases m
  {
    if m > 0 {
      PascalSum(n, x, m - 1);
      var c0, c1 := Binom(n, m - 1), Binom(n, m);
      var s0, s1, s2 := BinomSum(n, x, m - 1), BinomSum(n, x, m), BinomSum(n, x, m + 1);
      var w0, w1 := Pow(x, m - 1), Pow(x, m);
      assert Binom(n + 1, m) == c0 + c1;
      assert w1 == x * w0;
      assert s1 == s0 + c0 * w0;
      assert s2 == s1 + c1 * w1;
      assert BinomSum(n + 1, x, m) == x * s0 + s1;
      assert BinomSum(n + 1, x, m + 1) == BinomSum(n + 1, x, m) + (c0 + c1) * w1;
      PascalStep(x, c0, c1, s0, s1, s2, w0, w1);
    }
  }

  /** The arithmetic of the inductive step of PascalSum, on plain numbers. */
  lemma PascalStep(x: int, c0: int, c1: int, s0: int, s1: int, s2: int, w0: int, w1: int)
    requires w1 == x * w0 && s1 == s0 + c0 * w0 && s2 == s1 + c1 * w1
    ensures x * s0 + s1 + (c0 + c1) * w1 == x * s1 + s2
  {
    calc {
      x * s0 + s1 + (c0 + c1) * w1;
      x * s0 + c0 * (x * w0) + (s1 + c1 * w1);
      x * (s0 + c0 * w0) + s2;
    }
  }

  /** The binomial theorem for (x + 1)^n. */
  lemma {:induction false} BinomialTheorem(n: nat, x: int)
    ensures Pow(x + 1, n) == BinomSum(n, x, n + 1)
    decreases n
  {
    if n > 0 {
      var s, s' := BinomSum(n - 1, x, n), BinomSum(n - 1, x, n + 1);
      BinomialTheorem(n - 1, x);
      assert Pow(x + 1, n) == (x + 1) * s;
      BinomAbove(n - 1, n);
      assert s' == s + Binom(n - 1, n) * Pow(x, n);
      assert s' == s;
      PascalSum(n - 1, x, n);
      assert BinomSum(n, x, n + 1) == x * s + s';
      AddOne(x, s);
    }
  }

  lemma AddOne(x: int, s: int)
    ensures (x + 1) * s == x * s + s
  {
  }

  /** All inner terms of the expansion of (x + 1)^p vanish modulo p. */
  lemma {:induction false} InnerTermsVanish(p: nat, x: int, m: nat)
    requires IsPrime(p) && 1 <= m <= p
    ensures BinomSum(p, x, m) % p == 1
    decreases m
  {
    ModSmall(1, p);
    if m == 1 {
      assert BinomSum(p, x, 1) == 1;
    } else {
      var s, c, w := BinomSum(p, x, m - 1), Binom(p, m - 1), Pow(x, m - 1);
      assert BinomSum(p, x, m) == s + c * w;
      InnerTermsVanish(p, x, m - 1);
      PrimeDividesBinom(p, m - 1);
      MultipleOfMod(c, p);
      ScaleMultiple(c, c / p, w, p);
      ModMultipleAdd((c / p) * w, p, s);
    }
  }

  /** A multiple of p times w is again a multiple of p. */
  lemma ScaleMultiple(c: int, t: int, w: int, p: int)
    requires c == t * p
    ensures c * w == (t * w) * p
  {
  }

  /** (x + 1)^p == x^p + 1 modulo a prime p. */
  lemma FreshmansDream(p: nat, x: int)
    requires IsPrime(p)
    ensures Pow(x + 1, p) % p == (Pow(x, p) + 1) % p
  {
    var s, w := BinomSum(p, x, p), Pow(x, p);
    BinomialTheorem(p, x);
    BinomDiagonal(p);
    assert Pow(x + 1, p) == s + w by {
      assert BinomSum(p, x, p + 1) == s + Binom(p, p) * w;
    }
    InnerTermsVanish(p, x, p);
    ModSmall(1, p);
    ModAdd(s, w, 1, w, p);
  }

  /** x^p == x modulo a prime p, for every natural x. */
  lemma {:induction false} FermatNat(p: nat, x: nat)
    requires IsPrime(p)
    ensures Pow(x, p) % p == x % p
    decreases x
  {
    if x == 0 {
      PowZero(p);
    } else {
      FermatNat(p, x - 1);
      FreshmansDream(p, x - 1);
      ModAdd(Pow(x - 1, p), 1, x - 1, 1, p);
    }
  }

  lemma FactorOut(y: int, v: int)
    ensures y * (v - 1) == v * y - y
  {
  }

  /** Fermat's little theorem: x^(p-1) mod p == 1 when the prime p does not divide x. */
  lemma FermatLittle(p: nat, x: int)
    requires IsPrime(p) && x % p != 0
    ensures Pow(x, p - 1) % p == 1
  {
    var y := x % p;
    var v := Pow(y, p - 1);
    assert Pow(y, p) == v * y by {
      PowSucc(y, p - 1);
    }
    assert (y * (v - 1)) % p == 0 by {
      FermatNat(p, y);
      ModEqIffDiff(Pow(y, p), y, p);
      FactorOut(y, v);
    }
    ModMod(x, p);
    Euclid(p, y, v - 1);
    ModEqIffDiff(v, 1, p);
    ModSmall(1, p);
    ModPowBase(x, y, p - 1, p);
  }
}
