/** Small facts about products, quotients and congruences that the solver does not find alone. */
module Arith {

  lemma MulMono(a: int, b: int, c: int)
    requires a <= b && 0 <= c
    ensures a * c <= b * c
  {
  }

  lemma MulZero(a: int)
    ensures 0 * a == 0 && a * 0 == 0
  {
  }

  lemma MulLess(a: int, b: int, c: int)
    requires a < b && c > 0
    ensures a * c < b * c
  {
    MulMono(a + 1, b, c);
  }

  lemma MulCancelMost(a: int, b: int, c: int)
    requires a * c <= b * c && c > 0
    ensures a <= b
  {
    if b < a {
      MulLess(b, a, c);
    }
  }

  lemma MulCancelLess(a: int, b: int, c: int)
    requires a * c < b * c && 0 <= c
    ensures a < b
  {
    if b <= a {
      MulMono(b, a, c);
    }
  }

  /** Quotient and remainder are determined by the division equation. */
  lemma DivUnique(x: int, d: int, q: int, r: int)
    requires 0 <= r < d && x == q * d + r
    ensures x / d == q && x % d == r
  {
    var q', r' := x / d, x % d;
    assert x == q' * d + r';
    if q' < q {
      MulMono(q' + 1, q, d);
    } else if q' > q {
      MulMono(q + 1, q', d);
    }
  }

  lemma DivIs(x: int, d: int, q: int)
    requires d > 0 && q * d <= x < q * d + d
    ensures x / d == q && x % d == x - q * d
  {
    DivUnique(x, d, q, x - q * d);
  }

  /** The leading digit decides, whatever the tails below the weight p. */
  lemma LeadingDigit(x: nat, lowX: nat, y: nat, lowY: nat, p: nat)
    requires lowX < p && lowY < p && x < y
    ensures lowX + x * p < lowY + y * p
  {
    MulMono(x + 1, y, p);
  }

  lemma Distribute(x: int, y: int, z: int)
    ensures (x + y) * z == x * z + y * z
  {
  }

  /** Reducing modulo a multiple first changes nothing. */
  lemma ModMultiple(x: int, m: int, j: int)
    requires m > 0 && j > 0
    ensures 0 < j * m && x % (j * m) % m == x % m
  {
    MulMono(1, j, m);
    var q, r := x / (j * m), x % (j * m);
    DivMod(r, m);
    assert q * (j * m) == (q * j) * m;
    Distribute(q * j, r / m, m);
    DivUnique(x, m, q * j + r / m, r % m);
  }

  lemma TwiceFactor(x: int, y: int)
    ensures 2 * (x * y) == (2 * x) * y
  {
  }

  lemma Factor(w: int, r: int, c: int, v: int)
    ensures w * (r + c * v) == w * r + c * (w * v)
  {
    assert w * (c * v) == c * (w * v);
  }

  lemma MulCancel(w: int, x: int, y: int)
    requires w != 0 && w * x == w * y
    ensures x == y
  {
    assert w * (x - y) == 0;
  }

  lemma QuotientOf(x: int, low: nat, w: nat, q: nat)
    requires low < w && x == low + w * q
    ensures x / w == q
  {
    DivUnique(x, w, q, low);
  }

  // ----- signed division that rounds towards zero, as in C

  function Abs(x: int): nat {
    if x < 0 then -x else x
  }

  /** The quotient mp_div is meant to give. */
  function TQuot(a: int, b: int): int
    requires b != 0
  {
    if (a < 0) == (b < 0) then Abs(a) / Abs(b) else -(Abs(a) / Abs(b))
  }

  /** The remainder mp_div is meant to give: it takes the sign of the dividend. */
  function TRem(a: int, b: int): int
    requires b != 0
  {
    if a < 0 then -(Abs(a) % Abs(b)) else Abs(a) % Abs(b)
  }

  lemma TDivisionHolds(a: int, b: int)
    requires b != 0
    ensures a == TQuot(a, b) * b + TRem(a, b) && Abs(TRem(a, b)) < Abs(b)
    ensures TRem(a, b) == 0 || (TRem(a, b) < 0) == (a < 0)
  {
    DivMod(Abs(a), Abs(b));
    SignedTerm(Abs(a) / Abs(b), Abs(b));
  }

  lemma DivMod(m: int, d: int)
    requires d > 0
    ensures m == (m / d) * d + m % d && 0 <= m % d < d
  {
  }

  lemma SignedTerm(q: int, d: int)
    ensures (-q) * d == -(q * d) && q * (-d) == -(q * d) && (-q) * (-d) == q * d
  {
  }

  /** Quotient and remainder satisfy the division equation, and nothing else does. */
  lemma TDivision(a: int, b: int, q: int, r: int)
    requires b != 0 && a == q * b + r && Abs(r) < Abs(b) && (r == 0 || (r < 0) == (a < 0))
    ensures q == TQuot(a, b) && r == TRem(a, b)
  {
    var q' := if (a < 0) == (b < 0) then q else -q;
    SignedTerm(q, b);
    DivUnique(Abs(a), Abs(b), q', Abs(r));
  }
}
