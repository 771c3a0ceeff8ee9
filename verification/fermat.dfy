/** The number theory behind the primality test: Euclid's lemma, Fermat's little theorem, square roots of one. */
module Fermat {
  import opened Arith
  import opened Congruences
  import opened Divisors

  predicate IsPrime(p: int) {
    p >= 2 && forall d :: 2 <= d < p ==> p % d != 0
  }

  /** The greatest common divisor as a combination. */
  lemma {:induction false} Bezout(a: nat, b: nat) returns (u: int, v: int)
    requires a > 0 || b > 0
    ensures u * a + v * b == Gcd(a, b)
    decreases b
  {
    if b == 0 {
      u, v := 1, 0;
    } else {
      DivMod(a, b);
      var u', v' := Bezout(b, a % b);
      u, v := v', u' - v' * (a / b);
      UnrollBezout(a, b, u', v', a / b, a % b);
    }
  }

  lemma UnrollBezout(a: int, b: int, u: int, v: int, q: int, r: int)
    requires a == q * b + r
    ensures v * a + (u - v * q) * b == u * b + v * r
  {
    assert v * (q * b + r) == (v * q) * b + v * r;
    Distribute(u, -(v * q), b);
  }

  /** A prime has nothing in common with a number that it does not divide. */
  lemma CoprimeToPrime(p: nat, x: nat)
    requires IsPrime(p) && x % p != 0
    ensures Gcd(x, p) == 1
  {
    var g := Gcd(x, p);
    GcdDivides(x, p);
    DividesBelow(g, p);
  }

  /** ... and so that number has an inverse. */
  lemma PrimeInverse(p: nat, x: nat) returns (xi: int)
    requires IsPrime(p) && x % p != 0
    ensures (x * xi) % p == 1 % p
  {
    CoprimeToPrime(p, x);
    var v;
    xi, v := Bezout(x, p);
    ReduceTerm(1, -v, p);
    assert x * xi == 1 + (-v) * p;
  }

  /** Euclid's lemma. */
  lemma EuclidsLemma(p: nat, x: int, y: nat)
    requires IsPrime(p) && (x * y) % p == 0 && y % p != 0
    ensures x % p == 0
  {
    var yi := PrimeInverse(p, y);
    DivUnique(0, p, 0, 0);
    assert (0 * y) % p == 0;
    CancelFactor(x, 0, y, yi, p);
  }

  // ----- binomial coefficients

  function Choose(n: nat, k: nat): nat {
    if k == 0 then 1 else if n == 0 then 0 else Choose(n - 1, k - 1) + Choose(n - 1, k)
  }

  lemma {:induction false} ChooseAbove(n: nat, k: nat)
    requires k > n
    ensures Choose(n, k) == 0
  {
    if n > 0 {
      ChooseAbove(n - 1, k - 1);
      ChooseAbove(n - 1, k);
    }
  }

  lemma {:induction false} ChooseAll(n: nat)
    ensures Choose(n, n) == 1
  {
    if n > 0 {
      ChooseAll(n - 1);
      ChooseAbove(n - 1, n);
    }
  }

  /** k * C(n, k) == n * C(n - 1, k - 1) */
  lemma {:induction false} Absorb(n: nat, k: nat)
    requires n > 0 && k > 0
    ensures k * Choose(n, k) == n * Choose(n - 1, k - 1)
    decreases n
  {
    if n == 1 {
      if k > 1 {
        ChooseAbove(0, k - 1);
        ChooseAbove(0, k);
      }
    } else {
      var a, b := Choose(n - 1, k - 1), Choose(n - 1, k);
      Absorb(n - 1, k);
      if k == 1 {
        MulZero(n);
      } else {
        Absorb(n - 1, k - 1);
        AbsorbStep(n, k, a, b, Choose(n - 2, k - 2), Choose(n - 2, k - 1));
      }
    }
  }

  lemma AbsorbStep(n: int, k: int, a: int, b: int, c: int, d: int)
    requires k * b == (n - 1) * d && (k - 1) * a == (n - 1) * c && a == c + d
    ensures k * (a + b) == n * a
  {
    assert k * (a + b) == (k - 1) * a + a + k * b;
    assert (n - 1) * c + (n - 1) * d == (n - 1) * (c + d);
  }

  /** A prime divides the inner coefficients of its row. */
  lemma PrimeDividesChoose(p: nat, k: nat)
    requires IsPrime(p) && 0 < k < p
    ensures Choose(p, k) % p == 0
  {
    Absorb(p, k);
    DivUnique(p * Choose(p - 1, k - 1), p, Choose(p - 1, k - 1), 0);
    DivUnique(k, p, 0, k);
    assert Choose(p, k) * k == k * Choose(p, k);
    EuclidsLemma(p, Choose(p, k), k);
  }

  /** The first m terms of the expansion of (a + 1)^n. */
  function Terms(a: int, n: nat, m: nat): int {
    if m == 0 then 0 else Terms(a, n, m - 1) + Choose(n, m - 1) * Pow(a, m - 1)
  }

  lemma {:induction false} TermsStep(a: int, n: nat, m: nat)
    ensures Terms(a, n + 1, m + 1) == Terms(a, n, m + 1) + a * Terms(a, n, m)
  {
    if m == 0 {
      MulZero(a);
    } else {
      TermsStep(a, n, m - 1);
      PascalTerm(Choose(n, m - 1), Choose(n, m), Pow(a, m - 1), a, Terms(a, n, m - 1));
    }
  }

  lemma PascalTerm(c: int, d: int, w: int, a: int, t: int)
    ensures (c + d) * (a * w) == d * (a * w) + a * (c * w)
    ensures a * (t + c * w) == a * t + a * (c * w)
  {
    assert c * (a * w) == a * (c * w);
    Distribute(c, d, a * w);
  }

  lemma {:induction false} Binomial(a: int, n: nat)
    ensures Pow(a + 1, n) == Terms(a, n, n + 1)
  {
    if n == 0 {
      assert Terms(a, 0, 1) == Terms(a, 0, 0) + Choose(0, 0) * Pow(a, 0);
    } else {
      Binomial(a, n - 1);
      TermsStep(a, n - 1, n);
      ChooseAbove(n - 1, n);
      MulZero(Pow(a, n));
      assert Terms(a, n - 1, n + 1) == Terms(a, n - 1, n);
      Distribute(a, 1, Pow(a + 1, n - 1));
    }
  }

  /** Modulo a prime only the first term of the first m remains. */
  lemma {:induction false} OnlyOnes(a: int, p: nat, m: nat)
    requires IsPrime(p) && 0 < m <= p
    ensures Terms(a, p, m) % p == 1
  {
    if m == 1 {
      assert Terms(a, p, 1) == Terms(a, p, 0) + Choose(p, 0) * Pow(a, 0);
      DivUnique(1, p, 0, 1);
    } else {
      OnlyOnes(a, p, m - 1);
      PrimeDividesChoose(p, m - 1);
      VanishingTerm(Terms(a, p, m - 1), Choose(p, m - 1), Pow(a, m - 1), p);
    }
  }

  lemma VanishingTerm(t: int, c: int, w: int, p: nat)
    requires p > 0 && c % p == 0
    ensures (t + c * w) % p == t % p
  {
    DivMod(c, p);
    assert (c / p * p) * w == (c / p * w) * p;
    ReduceTerm(t, c / p * w, p);
  }

  /** a^p is a, modulo the prime p. */
  lemma {:induction false} FermatPower(a: nat, p: nat)
    requires IsPrime(p)
    ensures Pow(a, p) % p == a % p
  {
    if a == 0 {
      MulZero(Pow(0, p - 1));
    } else {
      FermatPower(a - 1, p);
      Binomial(a - 1, p);
      ChooseAll(p);
      OnlyOnes(a - 1, p, p);
      DivUnique(1, p, 0, 1);
      SumCongruence(Terms(a - 1, p, p), 1, Pow(a - 1, p), a - 1, p);
    }
  }

  /** Fermat's little theorem. */
  lemma LittleFermat(a: nat, p: nat)
    requires IsPrime(p) && a % p != 0
    ensures Pow(a, p - 1) % p == 1
  {
    FermatPower(a, p);
    var ai := PrimeInverse(p, a);
    assert Pow(a, p) == a * Pow(a, p - 1);
    assert Pow(a, p - 1) * a == a * Pow(a, p - 1);
    CancelFactor(Pow(a, p - 1), 1, a, ai, p);
    DivUnique(1, p, 0, 1);
  }

  /** One has only the square roots 1 and -1 modulo a prime. */
  lemma RootsOfOne(y: nat, p: nat)
    requires IsPrime(p) && y < p && (y * y) % p == 1
    ensures y == 1 || y == p - 1
  {
    DivUnique(1, p, 0, 1);
    DifferenceMultiple(y * y, 1, p);
    assert (y - 1) * (y + 1) == y * y - 1;
    if (y + 1) % p != 0 {
      EuclidsLemma(p, y - 1, y + 1);
      if y == 0 {
        DivUnique(-1, p, -1, p - 1);
      } else {
        DivUnique(y - 1, p, 0, y - 1);
      }
    } else if y + 1 < p {
      DivUnique(y + 1, p, 0, y + 1);
    }
  }
}
