/** Congruences modulo a positive number, and powers. */
module Congruences {
  import opened Arith
  import opened Radix

  // ----- congruences, written as equal remainders

  lemma ScaleCongruence(x: int, y: int, n: int, m: int)
    requires n > 0 && x % n == y % n
    ensures (x * m) % n == (y * m) % n
  {
    DivMod(x, n);
    DivMod(y, n);
    var k := x / n - y / n;
    assert x == y + k * n by {
      Distribute(x / n, -(y / n), n);
    }
    assert x * m == y * m + (k * m) * n;
    ReduceTerm(y * m, k * m, n);
  }

  /** Multiples of n do not matter modulo n. */
  lemma ReduceTerm(x: int, k: int, n: int)
    requires n > 0
    ensures (x + k * n) % n == x % n
  {
    DivMod(x, n);
    Distribute(x / n, k, n);
    DivUnique(x + k * n, n, x / n + k, x % n);
  }

  lemma SumCongruence(x: int, x': int, y: int, y': int, n: int)
    requires n > 0 && x % n == x' % n && y % n == y' % n
    ensures (x + y) % n == (x' + y') % n
  {
    AddCongruence(x, x', y, n);
    AddCongruence(y, y', x', n);
  }

  lemma AddCongruence(x: int, x': int, y: int, n: int)
    requires n > 0 && x % n == x' % n
    ensures (x + y) % n == (x' + y) % n
  {
    DivMod(x, n);
    DivMod(x', n);
    Distribute(x / n, -(x' / n), n);
    ReduceTerm(x' + y, x / n - x' / n, n);
  }

  lemma ProductCongruence(x: int, x': int, y: int, y': int, n: int)
    requires n > 0 && x % n == x' % n && y % n == y' % n
    ensures (x * y) % n == (x' * y') % n
  {
    ScaleCongruence(x, x', n, y);
    ScaleCongruence(y, y', n, x');
    assert y * x' == x' * y && y' * x' == x' * y';
  }

  /** A remainder stands for its number. */
  lemma RemainderIs(x: int, n: int)
    requires n > 0
    ensures (x % n) % n == x % n
  {
    DivMod(x, n);
    DivUnique(x % n, n, 0, x % n);
  }

  /** Congruence means a difference that is a multiple, and conversely. */
  lemma DifferenceMultiple(x: int, y: int, n: int)
    requires n > 0
    ensures x % n == y % n <==> (x - y) % n == 0
  {
    if x % n == y % n {
      SumCongruence(x, y, -y, -y, n);
      DivUnique(0, n, 0, 0);
    } else if (x - y) % n == 0 {
      DivUnique(0, n, 0, 0);
      SumCongruence(x - y, 0, y, y, n);
    }
  }

  /** A factor with an inverse can be cancelled. */
  lemma CancelFactor(x: int, y: int, r: int, ri: int, n: int)
    requires n > 0 && (x * r) % n == (y * r) % n && (r * ri) % n == 1 % n
    ensures x % n == y % n
  {
    ScaleCongruence(x * r, y * r, n, ri);
    ScaleCongruence(r * ri, 1, n, x);
    ScaleCongruence(r * ri, 1, n, y);
    assert (x * r) * ri == (r * ri) * x && (y * r) * ri == (r * ri) * y;
  }

  // ----- powers

  function Pow(b: int, e: nat): int {
    if e == 0 then 1 else b * Pow(b, e - 1)
  }

  lemma {:induction false} PowAdd(b: int, m: nat, n: nat)
    ensures Pow(b, m + n) == Pow(b, m) * Pow(b, n)
  {
    if m > 0 {
      PowAdd(b, m - 1, n);
      assert b * (Pow(b, m - 1) * Pow(b, n)) == (b * Pow(b, m - 1)) * Pow(b, n);
    }
  }

  /** The base may be replaced by anything congruent to it. */
  lemma {:induction false} PowCongruence(b: int, c: int, e: nat, n: int)
    requires n > 0 && b % n == c % n
    ensures Pow(b, e) % n == Pow(c, e) % n
  {
    if e > 0 {
      PowCongruence(b, c, e - 1, n);
      ProductCongruence(b, c, Pow(b, e - 1), Pow(c, e - 1), n);
    }
  }

  // ----- powers of two are invertible modulo odd numbers

  lemma HalfInverse(n: nat)
    requires n % 2 == 1
    ensures (2 * ((n + 1) / 2)) % n == 1 % n
  {
    ReduceTerm(1, 1, n);
  }

  lemma {:induction false} Pow2Inverse(e: nat, n: nat)
    requires n % 2 == 1
    ensures (Pow2(e) * Pow((n + 1) / 2, e)) % n == 1 % n
  {
    if e > 0 {
      var h := (n + 1) / 2;
      Pow2Inverse(e - 1, n);
      HalfInverse(n);
      ProductCongruence(2 * h, 1, Pow2(e - 1) * Pow(h, e - 1), 1, n);
      PairUp(2, h, Pow2(e - 1), Pow(h, e - 1));
    }
  }

  lemma PairUp(x: int, y: int, z: int, w: int)
    ensures (x * y) * (z * w) == (x * z) * (y * w)
  {
  }
}
