/** mp_div_3 and mp_div_d: division by one digit, through the special cases the source picks out. */
module DigitDivision {
  import opened Arith
  import opened Radix
  import opened MpInts
  import opened SingleDigit
  import Bits

  /** "mp_clamp (&q); mp_exch (&q, c)" for a quotient that takes the dividend's sign. */
  method StoreDigitQuotient(c: MpInt, q: seq<nat>, neg: bool)
    requires Digits(q, |q|)
    modifies c
    ensures c.Valid() && c.Clean() && c.Mag() == Val(q, 0, |q|) && c.neg == (neg && c.used > 0) && c.used <= |q|
  {
    c.neg, c.used, c.dp := neg, |q|, q;
    c.Clamp();
  }

  /** mp_div_3: c = a / 3, rounded towards zero, and the remainder of the magnitude; c may be a. */
  method Div3(a: MpInt, c: MpInt?) returns (d: nat)
    requires a.Valid()
    modifies c
    ensures d == old(a.Mag()) % 3
    ensures c != null ==> c.Valid() && c.Mag() == old(a.Mag()) / 3 && c.neg == (old(a.neg) && c.used > 0)
  {
    var q;
    q, d := Div3Loop(a);
    DivUnique(a.Mag(), 3, Val(q, 0, |q|), d);
    if c != null {
      StoreDigitQuotient(c, q, a.neg);
    }
  }

  /** The search loop of s_is_power_of_two. */
  method IsPowerOfTwo(b: nat) returns (found: bool, p: nat)
    ensures found ==> p < DIGIT_BIT && b == Pow2(p)
    ensures !found ==> forall x :: 0 <= x < DIGIT_BIT ==> b != Pow2(x)
  {
    p := 0;
    var power := 1;
    while p < DIGIT_BIT
      invariant p <= DIGIT_BIT && power == Pow2(p)
      invariant forall x :: 0 <= x < p ==> b != Pow2(x)
    {
      if b == power {
        return true, p;
      }
      p, power := p + 1, 2 * power;
    }
    return false, 0;
  }

  /** The low bits of a number are the low bits of its lowest digit. */
  lemma LowestBits(a: MpInt, p: nat)
    requires a.Valid() && a.used > 0 && p < DIGIT_BIT
    ensures a.Mag() % Pow2(p) == a.dp[0] % Pow2(p)
  {
    assert a.Mag() == a.dp[0] + BASE * Val(a.dp, 1, a.used);
    Pow2Split(p);
    LowPart(a.dp[0], Pow2(p), Pow2(DIGIT_BIT - p), Val(a.dp, 1, a.used));
  }

  lemma LowPart(d: nat, p: nat, q: nat, h: nat)
    requires p > 0 && p * q == BASE
    ensures (d + BASE * h) % p == d % p
  {
    assert BASE * h == (q * h) * p by {
      assert (q * h) * p == (p * q) * h;
    }
    DivMod(d, p);
    Distribute(d / p, q * h, p);
    DivUnique(d + BASE * h, p, d / p + q * h, d % p);
  }

  /**
   mp_div_d: c, where wanted, becomes a / b rounded towards zero, and d is the remainder of the magnitude, whatever the
   sign of a; false is MP_VAL.  c may be a.
   */
  method DivD(a: MpInt, b: nat, c: MpInt?) returns (ok: bool, d: nat)
    requires a.Valid() && b < BASE && (c != null ==> c.Valid())
    modifies c
    ensures ok == (b != 0)
    ensures ok ==> d == old(a.Mag()) % b
    ensures ok && c != null ==> c.Valid() && c.Mag() == old(a.Mag()) / b && c.neg == (old(a.neg) && c.used > 0)
    ensures !ok && c != null ==> c.Valid() && c.Value() == old(c.Value())
  {
    if b == 0 {
      return false, 0;
    }
    MagBounds(a);
    if b == 1 || a.used == 0 {
      DivUnique(a.Mag(), b, if b == 1 then a.Mag() else 0, 0);
      if c != null {
        Copy(a, c);
      }
      return true, 0;
    }
    var found, ix := IsPowerOfTwo(b);
    if found {
      LowestBits(a, ix);
      d := a.dp[0] % Pow2(ix);
      if c != null {
        Bits.Div2d(a, ix, c, null);
      }
      return true, d;
    }
    if b == 3 {
      d := Div3(a, c);
      return true, d;
    }
    var q;
    q, d := DivDGeneral(a, b);
    DivUnique(a.Mag(), b, Val(q, 0, |q|), d);
    if c != null {
      StoreDigitQuotient(c, q, a.neg);
    }
    return true, d;
  }

  /** Reading the lowest digit of a number that may have none in use gives whatever lies there. */
  method LowestDigit(a: MpInt) returns (d: nat)
    requires a.used <= |a.dp|
    ensures |a.dp| > 0 ==> d == a.dp[0]
  {
    d := *;
    if |a.dp| > 0 {
      d := a.dp[0];
    }
  }

  /** The number that mp_cmp_d and mp_add_d see: for a zero with no digit in use, whatever its lowest word holds. */
  ghost function Seen(a: MpInt): int
    requires a.used <= |a.dp| && |a.dp| > 0
    reads a
  {
    if a.used == 0 then a.dp[0] else a.Value()
  }

  /** mp_cmp_d looks at the lowest digit even when none is significant. */
  method CmpD(a: MpInt, b: nat) returns (r: int)
    requires a.Valid() && b < BASE
    ensures |a.dp| > 0 ==> r == if Seen(a) < b then -1 else if Seen(a) > b then 1 else 0
    ensures ZeroReads(a) ==> r == if a.Value() < b then -1 else if a.Value() > b then 1 else 0
    ensures a.neg ==> r == -1
  {
    MagBounds(a);
    if a.neg {
      return -1;
    }
    if a.used > 1 {
      WMono(1, a.used - 1);
      assert W(1) == BASE * W(0);
      return 1;
    }
    assert a.used == 1 ==> Val(a.dp, 0, 1) == a.dp[0];
    var d := LowestDigit(a);
    return if d > b then 1 else if d < b then -1 else 0;
  }
}
