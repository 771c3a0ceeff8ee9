/** Divisibility and greatest common divisors. */
module Divisors {
  import opened Arith
  import Congruences

  predicate Divides(d: nat, x: int) {
    d > 0 && x % d == 0
  }

  lemma DividesBy(d: nat, x: int, k: int)
    requires d > 0 && x == k * d
    ensures Divides(d, x)
  {
    DivUnique(x, d, k, 0);
  }

  lemma QuotientBy(d: nat, x: int) returns (k: int)
    requires Divides(d, x)
    ensures x == k * d
  {
    k := x / d;
    DivMod(x, d);
  }

  lemma DividesSum(d: nat, x: int, y: int)
    requires Divides(d, x) && Divides(d, y)
    ensures Divides(d, x + y) && Divides(d, x - y)
  {
    var j := QuotientBy(d, x);
    var k := QuotientBy(d, y);
    Distribute(j, k, d);
    Distribute(j, -k, d);
    DividesBy(d, x + y, j + k);
    DividesBy(d, x - y, j - k);
  }

  lemma DividesProduct(d: nat, x: int, y: int)
    requires Divides(d, x)
    ensures Divides(d, x * y) && Divides(d, y * x)
  {
    var j := QuotientBy(d, x);
    assert (j * d) * y == (j * y) * d;
    DividesBy(d, x * y, j * y);
  }

  lemma DividesTrans(d: nat, e: nat, x: int)
    requires Divides(d, e) && Divides(e, x)
    ensures Divides(d, x)
  {
    var j := QuotientBy(e, x);
    DividesProduct(d, e, j);
  }

  lemma DividesBelow(d: nat, x: nat)
    requires Divides(d, x) && x > 0
    ensures d <= x
  {
    var j := QuotientBy(d, x);
    if j <= 0 {
      MulMono(j, 0, d);
    } else {
      MulMono(1, j, d);
    }
  }

  lemma DividesBoth(d: nat, e: nat)
    requires d > 0 && e > 0 && Divides(d, e) && Divides(e, d)
    ensures d == e
  {
    DividesBelow(d, e);
    DividesBelow(e, d);
  }

  // ----- the greatest common divisor

  function Gcd(a: nat, b: nat): (g: nat)
    requires a > 0 || b > 0
    ensures g > 0
    decreases b
  {
    if b == 0 then a else (DivMod(a, b); Gcd(b, a % b))
  }

  lemma {:induction false} GcdDivides(a: nat, b: nat)
    requires a > 0 || b > 0
    ensures Divides(Gcd(a, b), a) && Divides(Gcd(a, b), b)
    decreases b
  {
    if b == 0 {
      DividesBy(a, a, 1);
      DividesBy(a, 0, 0);
    } else {
      DivMod(a, b);
      GcdDivides(b, a % b);
      var g := Gcd(b, a % b);
      DividesProduct(g, b, a / b);
      DividesSum(g, (a / b) * b, a % b);
    }
  }

  /** Every common divisor divides the greatest one. */
  lemma {:induction false} GcdGreatest(a: nat, b: nat, d: nat)
    requires (a > 0 || b > 0) && Divides(d, a) && Divides(d, b)
    ensures Divides(d, Gcd(a, b))
    decreases b
  {
    if b != 0 {
      DivMod(a, b);
      DividesProduct(d, b, a / b);
      DividesSum(d, a, (a / b) * b);
      GcdGreatest(b, a % b, d);
    }
  }

  /** Two pairs with the same common divisors have the same greatest one. */
  lemma SameGcd(a: nat, b: nat, a': nat, b': nat)
    requires (a > 0 || b > 0) && (a' > 0 || b' > 0)
    requires Divides(Gcd(a, b), a') && Divides(Gcd(a, b), b')
    requires Divides(Gcd(a', b'), a) && Divides(Gcd(a', b'), b)
    ensures Gcd(a, b) == Gcd(a', b')
  {
    GcdGreatest(a', b', Gcd(a, b));
    GcdGreatest(a, b, Gcd(a', b'));
    DividesBoth(Gcd(a, b), Gcd(a', b'));
  }

  lemma GcdSwap(a: nat, b: nat)
    requires a > 0 || b > 0
    ensures Gcd(a, b) == Gcd(b, a)
  {
    GcdDivides(a, b);
    GcdDivides(b, a);
    SameGcd(a, b, b, a);
  }

  lemma GcdSubtract(a: nat, b: nat)
    requires b <= a && b > 0
    ensures Gcd(a - b, b) == Gcd(a, b)
  {
    GcdDivides(a, b);
    GcdDivides(a - b, b);
    DividesSum(Gcd(a, b), a, b);
    DividesSum(Gcd(a - b, b), a - b, b);
    SameGcd(a, b, a - b, b);
  }

  /** An odd divisor of a double divides the half. */
  lemma OddDivisor(d: nat, h: int)
    requires Divides(d, 2 * h) && d % 2 == 1
    ensures Divides(d, h)
  {
    var k := QuotientBy(d, 2 * h);
    var e := d / 2;
    OddHalf(k, d, e, h);
    TwiceFactor(h - k * e, d);
    DividesBy(d, h, h - k * e);
  }

  lemma OddHalf(k: int, d: int, e: int, h: int)
    requires d == 2 * e + 1 && k * d == 2 * h
    ensures k == 2 * (h - k * e)
  {
    assert k * d == k * (2 * e) + k;
    assert k * (2 * e) == 2 * (k * e);
  }

  lemma DivisorOfOdd(d: nat, v: int)
    requires Divides(d, v) && v % 2 == 1
    ensures d % 2 == 1
  {
    var k := QuotientBy(d, v);
    var e, r := d / 2, d % 2;
    assert k * (2 * e + r) == 2 * (k * e) + k * r;
    MulZero(k);
  }

  lemma GcdHalve(h: nat, v: nat)
    requires v % 2 == 1
    ensures Gcd(2 * h, v) == Gcd(h, v)
  {
    GcdDivides(2 * h, v);
    GcdDivides(h, v);
    DivisorOfOdd(Gcd(2 * h, v), v);
    OddDivisor(Gcd(2 * h, v), h);
    DividesSum(Gcd(h, v), h, h);
    SameGcd(2 * h, v, h, v);
  }

  lemma GcdDouble(a: nat, b: nat)
    requires a > 0 || b > 0
    ensures Gcd(2 * a, 2 * b) == 2 * Gcd(a, b)
    decreases b
  {
    if b != 0 {
      DivMod(a, b);
      DoubledRemainder(a, b, a / b, a % b);
      GcdDouble(b, a % b);
    }
  }

  lemma DoubledRemainder(a: nat, b: nat, q: int, r: nat)
    requires b > 0 && a == q * b + r && r < b
    ensures (2 * a) % (2 * b) == 2 * r
  {
    assert q * (2 * b) == 2 * (q * b);
    DivUnique(2 * a, 2 * b, q, 2 * r);
  }

  /** Only a number that has nothing in common with the modulus has an inverse, so a refusal is right. */
  lemma InverseMeansCoprime(x: nat, n: nat, c: int)
    requires n > 0 && (x * c) % n == 1 % n
    ensures Gcd(x, n) == 1
  {
    var g := Gcd(x, n);
    GcdDivides(x, n);
    Congruences.DifferenceMultiple(x * c, 1, n);
    DividesProduct(g, x, c);
    DividesTrans(g, n, x * c - 1);
    DividesSum(g, x * c, x * c - 1);
    DividesBelow(g, 1);
  }
}
