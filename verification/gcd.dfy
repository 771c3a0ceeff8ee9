/** mp_gcd, the binary method, and mp_exteuclid. */
module GreatestCommonDivisor {
  import opened Arith
  import opened Radix
  import opened MpInts
  import AddSub
  import SingleDigit
  import Bits
  import LongDivision
  import Multiply
  import DigitCounts
  import Product
  import opened ToomThree
  import opened Divisors
  import Inverse

  /** The greatest common divisor of any two integers; zero for two zeros. */
  function GcdOf(a: int, b: int): nat {
    if a == 0 && b == 0 then 0 else Gcd(Abs(a), Abs(b))
  }

  // ----- counting trailing zeros

  /** m is 2^r times an odd number. */
  ghost predicate TwoPart(m: nat, r: nat) {
    m % Pow2(r) == 0 && (m / Pow2(r)) % 2 == 1
  }

  lemma TwoPartIs(m: nat, r: nat, o: nat)
    requires m == o * Pow2(r) && o % 2 == 1
    ensures TwoPart(m, r)
  {
    DivUnique(m, Pow2(r), o, 0);
  }

  /** lnz: the trailing zeros of a nibble, four for zero. */
  const LNZ: seq<nat> := [4, 0, 1, 0, 2, 0, 1, 0, 3, 0, 1, 0, 2, 0, 1, 0]

  lemma Nibble(q: nat)
    requires 0 < q < 16
    ensures LNZ[q] <= 3 && q % Pow2(LNZ[q]) == 0 && (q / Pow2(LNZ[q])) % 2 == 1
  {
    assert Pow2(0) == 1 && Pow2(1) == 2 && Pow2(2) == 4 && Pow2(3) == 8;
  }

  /** The lowest one bit of a nonzero nibble is the lowest one bit of the number. */
  lemma NibbleOfNumber(q: nat) returns (o: nat)
    requires q % 16 != 0
    ensures q == o * Pow2(LNZ[q % 16]) && o % 2 == 1
  {
    var n, h := q % 16, q / 16;
    Nibble(n);
    assert Pow2(0) == 1 && Pow2(1) == 2 && Pow2(2) == 4 && Pow2(3) == 8;
    var z, m := LNZ[n], n / Pow2(LNZ[n]);
    DivMod(n, Pow2(z));
    var k := if z == 0 then 8 else if z == 1 then 4 else if z == 2 then 2 else 1;
    o := OddAboveNibble(q, h, m, k, Pow2(z));
  }

  lemma OddAboveNibble(q: nat, h: nat, m: nat, k: nat, p: nat) returns (o: nat)
    requires q == 16 * h + m * p && m % 2 == 1 && k * p == 8 && (k == 8 || k == 4 || k == 2 || k == 1)
    ensures q == o * p && o % 2 == 1
  {
    o := 2 * (k * h) + m;
    assert o * p == 2 * ((k * p) * h) + m * p;
  }

  lemma ShiftedOdd(d: nat, q: nat, done: nat, o: nat, z: nat)
    requires d == q * Pow2(done) && q == o * Pow2(z)
    ensures d == o * Pow2(done + z)
  {
    Pow2Add(done, z);
    assert (o * Pow2(z)) * Pow2(done) == o * (Pow2(done) * Pow2(z));
  }

  /** The last loop of mp_cnt_lsb, on the lowest nonzero digit. */
  method DigitLsb(d: nat) returns (x: nat)
    requires d > 0
    ensures TwoPart(d, x)
  {
    x := 0;
    var q: nat := d;
    if q % 2 == 0 {
      var qq: nat := 0;
      while qq == 0
        invariant qq == 0 ==> q > 0 && d == q * Pow2(x)
        invariant qq != 0 ==> TwoPart(d, x)
        decreases qq == 0, q
      {
        qq := q % 16;
        ghost var x0, q0 := x, q;
        x := x + LNZ[qq];
        q := q / 16;
        if qq == 0 {
          assert Pow2(4) == 16;
          ShiftedOdd(d, q0, x0, q, 4);
        } else {
          ghost var o := NibbleOfNumber(q0);
          ShiftedOdd(d, q0, x0, o, LNZ[qq]);
          TwoPartIs(d, x, o);
        }
      }
    } else {
      TwoPartIs(d, 0, d);
    }
  }

  /** Zero digits below, and a digit with trailing zeros. */
  lemma LowestOne(s: seq<nat>, n: nat, k: nat, x: nat)
    requires k < n <= |s| && Digits(s, n) && (forall i :: 0 <= i < k ==> s[i] == 0) && s[k] > 0 && TwoPart(s[k], x)
    ensures TwoPart(Val(s, 0, n), DIGIT_BIT * k + x)
  {
    AboveZeros(s, n, k);
    var o := OddQuotient(s[k], x);
    var q := RoomAbove(s[k], x, o);
    WIsPow2(k);
    Pow2Add(DIGIT_BIT * k, x);
    var above := OddAbove(o, Pow2(x), s[k], Val(s, k + 1, n), q, W(k), Val(s, 0, n));
    TwoPartIs(Val(s, 0, n), DIGIT_BIT * k + x, above);
  }

  lemma OddQuotient(d: nat, x: nat) returns (o: nat)
    requires TwoPart(d, x)
    ensures d == o * Pow2(x) && o % 2 == 1
  {
    DivMod(d, Pow2(x));
    o := d / Pow2(x);
  }

  /** A digit's lowest one bit lies inside the digit. */
  lemma RoomAbove(d: nat, x: nat, o: nat) returns (q: nat)
    requires d < BASE && d == o * Pow2(x) && o > 0
    ensures Pow2(x) * (2 * q) == BASE
  {
    MulMono(1, o, Pow2(x));
    Pow2Digit();
    if x >= DIGIT_BIT {
      Pow2Mono(DIGIT_BIT, x);
    }
    SingleDigit.Pow2Split(x);
    q := Pow2(DIGIT_BIT - x - 1);
    assert Pow2(DIGIT_BIT - x) == 2 * q;
  }

  lemma AboveZeros(s: seq<nat>, n: nat, k: nat)
    requires k < n <= |s| && forall i :: 0 <= i < k ==> s[i] == 0
    ensures Val(s, 0, n) == W(k) * (s[k] + BASE * Val(s, k + 1, n))
  {
    ValSplit(s, 0, k, n);
    ValZeros(s, 0, k);
  }

  lemma OddAbove(o: nat, p: nat, d: nat, h: nat, q: nat, w: nat, all: int) returns (above: nat)
    requires p * (2 * q) == BASE && d == o * p && all == w * (d + BASE * h)
    ensures above % 2 == o % 2 && all == above * (w * p)
  {
    MulMono(0, q, h);
    above := o + 2 * (q * h);
    assert BASE * h == (2 * (q * h)) * p by {
      assert (2 * (q * h)) * p == (p * (2 * q)) * h;
    }
    Distribute(o, 2 * (q * h), p);
    assert w * ((o + 2 * (q * h)) * p) == (o + 2 * (q * h)) * (w * p);
  }

  /** mp_cnt_lsb */
  method CntLsb(a: MpInt) returns (x: nat)
    requires a.Valid()
    ensures a.Value() == 0 ==> x == 0
    ensures a.Value() != 0 ==> TwoPart(a.Mag(), x)
  {
    MagBounds(a);
    if a.used == 0 {
      return 0;
    }
    x := 0;
    while a.dp[x] == 0
      invariant x < a.used && forall i :: 0 <= i < x ==> a.dp[i] == 0
      decreases a.used - x
    {
      x := x + 1;
    }
    var z := DigitLsb(a.dp[x]);
    LowestOne(a.dp, a.used, x, z);
    x := x * DIGIT_BIT + z;
  }

  // ----- the binary method

  /** m doubled k times. */
  function Doubled(m: nat, k: nat): nat {
    if k == 0 then m else 2 * Doubled(m, k - 1)
  }

  lemma {:induction false} DoubledIs(m: nat, k: nat)
    ensures Doubled(m, k) == m * Pow2(k)
  {
    if k > 0 {
      DoubledIs(m, k - 1);
      assert m * (2 * Pow2(k - 1)) == 2 * (m * Pow2(k - 1));
    }
  }

  lemma {:induction false} DoubledAdd(m: nat, j: nat, k: nat)
    ensures Doubled(Doubled(m, j), k) == Doubled(m, j + k)
    ensures m > 0 ==> Doubled(m, k) > 0
  {
    if k > 0 {
      DoubledAdd(m, j, k - 1);
    }
  }

  lemma {:induction false} GcdPow2(u: nat, m: nat, k: nat)
    requires u % 2 == 1
    ensures Gcd(Doubled(m, k), u) == Gcd(m, u)
  {
    if k > 0 {
      GcdPow2(u, m, k - 1);
      GcdHalve(Doubled(m, k - 1), u);
    }
  }

  lemma {:induction false} GcdScale(a: nat, b: nat, k: nat)
    requires a > 0 && b > 0
    ensures Doubled(a, k) > 0 && Doubled(b, k) > 0 && Gcd(Doubled(a, k), Doubled(b, k)) == Doubled(Gcd(a, b), k)
  {
    if k > 0 {
      GcdScale(a, b, k - 1);
      GcdDouble(Doubled(a, k - 1), Doubled(b, k - 1));
    }
  }

  /** Of two odd numbers times powers of two, one of which is one, only the odd parts matter. */
  lemma CoprimeTwos(oa: nat, ob: nat, i: nat, j: nat)
    requires (i == 0 || j == 0) && oa % 2 == 1 && ob % 2 == 1
    ensures Doubled(oa, i) > 0 && Doubled(ob, j) > 0 && Gcd(Doubled(oa, i), Doubled(ob, j)) == Gcd(oa, ob)
  {
    DoubledAdd(oa, 0, i);
    DoubledAdd(ob, 0, j);
    if i == 0 {
      GcdSwap(oa, Doubled(ob, j));
      GcdPow2(oa, ob, j);
      GcdSwap(ob, oa);
    } else {
      GcdPow2(ob, oa, i);
    }
  }

  /** Taking the twos out of both numbers leaves the common ones out of the divisor. */
  lemma TakeTwos(a: nat, b: nat, ua: nat, ub: nat, oa: nat, ob: nat, k: nat)
    requires a == Doubled(oa, ua) && b == Doubled(ob, ub) && oa % 2 == 1 && ob % 2 == 1
    requires k == if ua < ub then ua else ub
    ensures a > 0 && b > 0 && Gcd(a, b) == Doubled(Gcd(oa, ob), k)
  {
    var x := DoubledLess(oa, ua, k);
    var y := DoubledLess(ob, ub, k);
    CoprimeTwos(oa, ob, ua - k, ub - k);
    GcdScale(x, y, k);
  }

  lemma DoubledLess(o: nat, r: nat, k: nat) returns (x: nat)
    requires k <= r && o > 0
    ensures x == Doubled(o, r - k) > 0 && Doubled(o, r) == Doubled(x, k) > 0
  {
    x := Doubled(o, r - k);
    DoubledAdd(o, r - k, k);
    DoubledAdd(o, 0, r);
    DoubledAdd(o, 0, r - k);
  }

  /** Two shifts, or one, that together take out all the twos. */
  lemma ShiftTwice(m: nat, k: nat, r: nat)
    requires k <= r && TwoPart(m, r)
    ensures m / Pow2(k) / Pow2(r - k) == m / Pow2(r) && m == (m / Pow2(r)) * Pow2(r)
  {
    Pow2Add(k, r - k);
    Bits.DivDiv(m, Pow2(k), Pow2(r - k));
    DivMod(m, Pow2(r));
  }

  /** "divide the power of two out", "divide any remaining factors of two out" */
  method OddPart(u: MpInt, k: nat, lsb: nat)
    requires u.Valid() && !u.neg && u.Mag() > 0 && TwoPart(u.Mag(), lsb) && k <= lsb
    modifies u
    ensures u.Valid() && !u.neg && u.Mag() == old(u.Mag()) / Pow2(lsb)
  {
    ShiftTwice(u.Mag(), k, lsb);
    assert u.Mag() / Pow2(0) == u.Mag();
    if k > 0 {
      Bits.Div2d(u, k, u, null);
    }
    if lsb != k {
      Bits.Div2d(u, lsb - k, u, null);
    } else {
      assert u.Mag() / Pow2(0) == u.Mag();
    }
  }

  lemma GcdMinus(u: nat, v: nat, w: nat, r: nat)
    requires 0 < u <= v && u % 2 == 1 && (v == u ==> w == 0) && (v > u ==> TwoPart(v - u, r) && w == (v - u) / Pow2(r))
    ensures Gcd(u, w) == Gcd(u, v) && (w == 0 || w % 2 == 1) && (v > u ==> w > 0) && w < v
  {
    GcdSwap(u, v);
    GcdSubtract(v, u);
    GcdSwap(u, v - u);
    if v > u {
      DivMod(v - u, Pow2(r));
      DoubledIs(w, r);
      GcdPow2(u, w, r);
      GcdSwap(u, w);
      MulMono(1, Pow2(r), w);
    }
  }

  /** The body of the loop: subtract the smaller from the larger, and take the twos out. */
  method BinaryStep(u: MpInt, v: MpInt)
    requires u.Valid() && v.Valid() && !u.neg && !v.neg && u != v && 0 < u.Mag() <= v.Mag() && u.Mag() % 2 == 1
    modifies v
    ensures v.Valid() && !v.neg && v.Mag() < old(v.Mag()) && (v.Mag() == 0 || v.Mag() % 2 == 1)
    ensures Gcd(u.Mag(), v.Mag()) == old(Gcd(u.Mag(), v.Mag()))
  {
    ghost var m, k := u.Mag(), v.Mag();
    UsedMono(u, v);
    AddSub.SSub(v, u, v);
    MagBounds(v);
    var r := CntLsb(v);
    assert Pow2(0) == 1 && 0 / 1 == 0;
    Bits.Div2d(v, r, v, null);
    GcdMinus(m, k, v.Mag(), r);
  }

  /** The loop: two odd numbers to their greatest common divisor. */
  method BinaryLoop(u0: MpInt, v0: MpInt) returns (u: MpInt)
    requires u0.Valid() && v0.Valid() && !u0.neg && !v0.neg && u0 != v0
    requires u0.Mag() % 2 == 1 && v0.Mag() % 2 == 1
    modifies u0, v0
    ensures (u == u0 || u == v0) && u.Valid() && !u.neg && u.Mag() == Gcd(old(u0.Mag()), old(v0.Mag()))
  {
    ghost var g := Gcd(u0.Mag(), v0.Mag());
    u := u0;
    var v := v0;
    var again := true;
    while again
      invariant (u == u0 && v == v0) || (u == v0 && v == u0)
      invariant u.Valid() && v.Valid() && !u.neg && !v.neg && u.Mag() % 2 == 1
      invariant (v.Mag() == 0 || v.Mag() % 2 == 1) && (again <==> v.Mag() > 0) && Gcd(u.Mag(), v.Mag()) == g
      decreases u.Mag() + v.Mag()
    {
      var r := CmpMag(u, v);
      if r == 1 {
        GcdSwap(u.Mag(), v.Mag());
        u, v := v, u;
      }
      BinaryStep(u, v);
      MagBounds(v);
      again := v.used != 0;
    }
  }

  /** mp_abs */
  method AbsInto(a: MpInt, c: MpInt)
    requires a.Valid() && c.Valid()
    modifies c
    ensures c.Valid() && !c.neg && c.Mag() == old(a.Mag())
  {
    Copy(a, c);
    ghost var was := c.dp;
    c.neg := false;
    ValSame(c.dp, was, 0, c.used);
    ValSame(old(a.dp), c.dp, 0, c.used);
  }

  /** mp_gcd; c may be a or b. */
  method GcdInto(a: MpInt, b: MpInt, c: MpInt)
    requires a.Valid() && b.Valid() && c.Valid()
    modifies c
    ensures c.Valid() && !c.neg && c.Mag() == GcdOf(old(a.Value()), old(b.Value()))
  {
    MagBounds(a);
    MagBounds(b);
    if a.used == 0 {
      GcdZero(b.Mag());
      AbsInto(b, c);
      return;
    }
    if b.used == 0 {
      AbsInto(a, c);
      return;
    }
    var u := LongDivision.CopyMagnitude(a);
    var v := LongDivision.CopyMagnitude(b);
    BinaryGcd(u, v, c);
  }

  lemma GcdZero(b: nat)
    ensures b > 0 ==> Gcd(0, b) == b
  {
    if b > 0 {
      DivUnique(0, b, 0, 0);
    }
  }

  /** The binary method on two positive numbers. */
  method BinaryGcd(u: MpInt, v: MpInt, c: MpInt)
    requires u.Valid() && v.Valid() && c.Valid() && !u.neg && !v.neg && u != v && c != u && c != v && u.Mag() > 0
    requires v.Mag() > 0
    modifies u, v, c
    ensures c.Valid() && !c.neg && c.Mag() == Gcd(old(u.Mag()), old(v.Mag()))
  {
    ghost var mu, mv := u.Mag(), v.Mag();
    var uLsb := CntLsb(u);
    var vLsb := CntLsb(v);
    var k := if uLsb < vLsb then uLsb else vLsb;
    OddPart(u, k, uLsb);
    OddPart(v, k, vLsb);
    ShiftTwice(mu, k, uLsb);
    ShiftTwice(mv, k, vLsb);
    DoubledIs(u.Mag(), uLsb);
    DoubledIs(v.Mag(), vLsb);
    TakeTwos(mu, mv, uLsb, vLsb, u.Mag(), v.Mag(), k);
    DoubledIs(Gcd(u.Mag(), v.Mag()), k);
    var w := BinaryLoop(u, v);
    SingleDigit.Mul2d(w, k, c);
    c.neg := false;
  }

  // ----- the extended algorithm

  /** Not both operands are long enough for Toom-3, so the product is exact whatever the signs. */
  lemma ShortProduct(a: int, b: int)
    requires DigitCounts.NumDigits(Abs(a)) < TOOM_MUL_CUTOFF || DigitCounts.NumDigits(Abs(b)) < TOOM_MUL_CUTOFF
    ensures Exact(a, b)
  {
  }

  lemma SizeMono(x: nat, y: nat)
    requires x <= y
    ensures DigitCounts.NumDigits(x) <= DigitCounts.NumDigits(y)
  {
    DigitCounts.NumDigitsBelow(y, DigitCounts.NumDigits(y));
    DigitCounts.NumDigitsBelow(x, DigitCounts.NumDigits(y));
  }

  predicate Tiny(x: int) {
    DigitCounts.NumDigits(Abs(x)) < TOOM_MUL_CUTOFF
  }

  lemma TinyBelow(x: int, y: int)
    requires Abs(x) <= Abs(y) && Tiny(y)
    ensures Tiny(x)
  {
    SizeMono(Abs(x), Abs(y));
  }

  lemma TinyUnit(x: int)
    requires Abs(x) <= 1
    ensures Tiny(x)
  {
    DigitCounts.NumDigitsBelow(Abs(x), 1);
    assert W(1) == BASE * W(0);
  }

  /** The triples (u1, u2, u3) and (v1, v2, v3) of the loop, as values. */
  datatype Triple = Triple(x: int, y: int, z: int)

  /** (t1, t2, t3) = (u1, u2, u3) - (v1, v2, v3) q, as mp_mul multiplies. */
  function NextTriple(u: Triple, v: Triple): Triple
    requires v.z != 0
  {
    var q := TQuot(u.z, v.z);
    Triple(u.x - Times(v.x, q), u.y - Times(v.y, q), u.z - Times(v.z, q))
  }

  /** A product that loses a borrow still leaves less than the dividend. */
  lemma RoundShrinks(u: Triple, v: Triple)
    requires v.z != 0
    ensures Abs(u.z) < Abs(v.z) ==> NextTriple(u, v).z == u.z
    ensures Abs(u.z) >= Abs(v.z) ==> Abs(NextTriple(u, v).z) < Abs(u.z)
  {
    var q := TQuot(u.z, v.z);
    SameDivisor(u.z, v.z);
    QuotientSmall(u.z, v.z);
    if Opposite(v.z, q) && UsesToom(v.z, q) {
      TimesError(v.z, q);
      TopProduct(v.z, q, Size(v.z), Size(q));
      QuotientProduct(u.z, v.z);
      DigitCounts.NumDigitsBelow(Abs(v.z), Size(v.z));
      ShrinkArith(u.z, v.z, q, Times(v.z, q), Size(v.z), Size(q));
    } else if q == 0 {
      MulZero(v.z);
    }
  }

  lemma ShrinkArith(u: int, v: int, q: int, p: int, i: nat, j: nat)
    requires i >= 350 && j >= 350 && Abs(v) < W(i) && Abs(v * q) <= Abs(u) && W(i + j - 2) <= Abs(v * q)
    requires Abs(u - v * q) < Abs(v) && Abs(p - v * q) <= W(i + j - 100)
    ensures Abs(u - p) < Abs(u)
  {
    WMono(i, i + j - 100);
    WMono(i + j - 99, i + j - 2);
    assert W(i + j - 99) == BASE * W(i + j - 100);
  }

  /** The quotient does not overshoot. */
  lemma QuotientProduct(x: int, y: int)
    requires y != 0
    ensures Abs(y * TQuot(x, y)) <= Abs(x)
  {
    DivMod(Abs(x), Abs(y));
    SignedTerm(Abs(y), Abs(x) / Abs(y));
    QuotientNonNegative(Abs(x), Abs(y));
  }

  /** The run of mp_exteuclid: it ends for every input. */
  function EuclidRun(u: Triple, v: Triple): Triple
    decreases Abs(u.z) + Abs(v.z), if Abs(u.z) < Abs(v.z) then 1 else 0
  {
    if v.z == 0 then u else RoundShrinks(u, v); EuclidRun(v, NextTriple(u, v))
  }

  /** "make sure U3 >= 0" */
  function Normalised(t: Triple): Triple {
    if t.z < 0 then Triple(-t.x, -t.y, -t.z) else t
  }

  /** What mp_exteuclid computes for a and b. */
  function Extended(a: int, b: int): Triple {
    Normalised(EuclidRun(Triple(1, 0, a), Triple(0, 1, b)))
  }

  /** u and v are combinations of a and b with the right divisor. */
  ghost predicate Euclid(u: Triple, v: Triple, a: int, b: int) {
    && u.x * a + u.y * b == u.z && v.x * a + v.y * b == v.z
    && GcdOf(u.z, v.z) == GcdOf(a, b)
  }

  /** The three products of the round. */
  predicate ExactRound(u: Triple, v: Triple)
    requires v.z != 0
  {
    var q := TQuot(u.z, v.z);
    Exact(v.x, q) && Exact(v.y, q) && Exact(v.z, q)
  }

  /** Every product of the run from u and v on is one that mp_mul gets right. */
  predicate ExactRun(u: Triple, v: Triple)
    decreases Abs(u.z) + Abs(v.z), if Abs(u.z) < Abs(v.z) then 1 else 0
  {
    if v.z == 0 then true else RoundShrinks(u, v); ExactRound(u, v) && ExactRun(v, NextTriple(u, v))
  }

  lemma ExactNext(u: Triple, v: Triple)
    requires v.z != 0 && ExactRound(u, v)
    ensures var q := TQuot(u.z, v.z); NextTriple(u, v) == Triple(u.x - v.x * q, u.y - v.y * q, u.z - v.z * q)
  {
    var q := TQuot(u.z, v.z);
    ExactTimes(v.x, q);
    ExactTimes(v.y, q);
    ExactTimes(v.z, q);
  }

  /** Every product of mp_exteuclid on a and b is one that mp_mul gets right. */
  predicate ExactEuclid(a: int, b: int) {
    ExactRun(Triple(1, 0, a), Triple(0, 1, b))
  }

  /** No product of the next round has two operands long enough for Toom-3. */
  ghost predicate NoToomNext(u: Triple, v: Triple) {
    && (!Tiny(v.z) ==> u.x == 1 && u.y == 0 && Tiny(u.z))
    && (Tiny(v.z) ==> Tiny(u.z) || (Abs(v.x) <= 1 && Abs(v.y) <= 1))
  }

  lemma QuotientSmall(x: int, y: int)
    requires y != 0
    ensures Abs(TQuot(x, y)) <= Abs(x)
    ensures Abs(x) < Abs(y) ==> TQuot(x, y) == 0
  {
    DivMod(Abs(x), Abs(y));
    var q := Abs(x) / Abs(y);
    if q < 0 {
      MulMono(q, -1, Abs(y));
    }
    MulMono(1, Abs(y), q);
    if Abs(x) < Abs(y) {
      DivUnique(Abs(x), Abs(y), 0, Abs(x));
    }
  }

  lemma ShortRound(u: Triple, v: Triple)
    requires NoToomNext(u, v) && v.z != 0
    ensures ExactRound(u, v)
  {
    var q := TQuot(u.z, v.z);
    QuotientSmall(u.z, v.z);
    if Tiny(u.z) {
      TinyBelow(q, u.z);
    } else {
      TinyUnit(v.x);
      TinyUnit(v.y);
    }
    ShortProduct(v.x, q);
    ShortProduct(v.y, q);
    ShortProduct(v.z, q);
  }

  lemma CombineRows(u: Triple, v: Triple, q: int, a: int, b: int)
    requires u.x * a + u.y * b == u.z && v.x * a + v.y * b == v.z
    ensures (u.x - v.x * q) * a + (u.y - v.y * q) * b == u.z - v.z * q
  {
    assert (u.x - v.x * q) * a == u.x * a - q * (v.x * a);
    assert (u.y - v.y * q) * b == u.y * b - q * (v.y * b);
    assert v.z * q == q * (v.x * a) + q * (v.y * b);
  }

  /** The remainder carries the divisor on. */
  lemma SameDivisor(x: int, y: int)
    requires y != 0
    ensures var r := x - y * TQuot(x, y);
            r == TRem(x, y) && Abs(r) < Abs(y) && Abs(r) <= Abs(x) && GcdOf(y, r) == GcdOf(x, y)
  {
    TDivisionHolds(x, y);
    DivMod(Abs(x), Abs(y));
    assert Abs(TRem(x, y)) == Abs(x) % Abs(y);
    QuotientNonNegative(Abs(x), Abs(y));
  }

  lemma QuotientNonNegative(x: nat, y: nat)
    requires y > 0
    ensures x % y <= x
  {
    DivMod(x, y);
    if x / y < 0 {
      MulMono(x / y, -1, y);
    } else {
      MulMono(0, x / y, y);
    }
  }

  lemma EuclidStep(u: Triple, v: Triple, a: int, b: int)
    requires Euclid(u, v, a, b) && v.z != 0 && ExactRound(u, v)
    ensures Euclid(v, NextTriple(u, v), a, b) && Abs(NextTriple(u, v).z) < Abs(v.z)
  {
    ExactNext(u, v);
    CombineRows(u, v, TQuot(u.z, v.z), a, b);
    SameDivisor(u.z, v.z);
  }

  lemma ShortStep(u: Triple, v: Triple)
    requires NoToomNext(u, v) && v.z != 0
    ensures NoToomNext(v, NextTriple(u, v)) && Abs(NextTriple(u, v).z) < Abs(v.z)
  {
    var t := NextTriple(u, v);
    ShortRound(u, v);
    ExactNext(u, v);
    SameDivisor(u.z, v.z);
    QuotientSmall(u.z, v.z);
    if Tiny(v.z) {
      TinyBelow(t.z, v.z);
    } else {
      SizeOrder(u.z, v.z);
      TinyBelow(t.z, u.z);
      MulZero(v.x);
      MulZero(v.y);
    }
  }

  lemma {:induction false} ShortRun(u: Triple, v: Triple)
    requires NoToomNext(u, v)
    ensures ExactRun(u, v)
    decreases Abs(v.z)
  {
    if v.z != 0 {
      ShortRound(u, v);
      ShortStep(u, v);
      ShortRun(v, NextTriple(u, v));
    }
  }

  /** One operand too short for Toom-3 is enough, whatever the other operand and the signs. */
  lemma ShortEuclid(a: int, b: int)
    requires Tiny(a) || Tiny(b)
    ensures ExactEuclid(a, b)
  {
    ShortRun(Triple(1, 0, a), Triple(0, 1, b));
  }

  lemma SizeOrder(x: int, y: int)
    requires Tiny(x) && !Tiny(y)
    ensures Abs(x) < Abs(y)
  {
    if Abs(y) <= Abs(x) {
      TinyBelow(y, x);
    }
  }

  // ----- what the run gives

  lemma {:induction false} RunCombines(u: Triple, v: Triple, a: int, b: int)
    requires Euclid(u, v, a, b) && ExactRun(u, v)
    ensures var t := EuclidRun(u, v); t.x * a + t.y * b == t.z && Abs(t.z) == GcdOf(a, b)
    decreases Abs(u.z) + Abs(v.z), if Abs(u.z) < Abs(v.z) then 1 else 0
  {
    if v.z != 0 {
      RoundShrinks(u, v);
      EuclidStep(u, v, a, b);
      RunCombines(v, NextTriple(u, v), a, b);
    } else {
      GcdZero(Abs(u.z));
    }
  }

  /** When mp_mul gets the products right, the result is a combination of the operands that makes their divisor. */
  lemma ExactBezout(a: int, b: int)
    requires ExactEuclid(a, b)
    ensures var t := Extended(a, b); a * t.x + b * t.y == t.z == GcdOf(a, b)
  {
    var u, v := Triple(1, 0, a), Triple(0, 1, b);
    RunCombines(u, v, a, b);
    NegatedRow(EuclidRun(u, v), a, b);
  }

  lemma NegatedRow(u: Triple, a: int, b: int)
    requires u.x * a + u.y * b == u.z
    ensures a * (-u.x) + b * (-u.y) == -u.z && a * u.x + b * u.y == u.z
  {
  }

  lemma PositiveStep(u: Triple, v: Triple)
    requires u.z >= 0 && v.z > 0
    ensures NextTriple(u, v).z == u.z % v.z >= 0 && GcdOf(v.z, u.z % v.z) == GcdOf(u.z, v.z)
  {
    SameDivisor(u.z, v.z);
    DivMod(u.z, v.z);
    QuotientNotNegative(u.z, v.z);
  }

  lemma QuotientNotNegative(x: nat, y: nat)
    requires y > 0
    ensures TQuot(x, y) >= 0 && Abs(x) == x && Abs(y) == y
  {
    var q := x / y;
    DivMod(x, y);
    if q < 0 {
      MulMono(q, -1, y);
    }
  }

  lemma {:induction false} PositiveRun(u: Triple, v: Triple)
    requires u.z >= 0 && v.z >= 0
    ensures EuclidRun(u, v).z == GcdOf(u.z, v.z)
    decreases Abs(u.z) + Abs(v.z), if Abs(u.z) < Abs(v.z) then 1 else 0
  {
    if v.z != 0 {
      RoundShrinks(u, v);
      PositiveStep(u, v);
      PositiveRun(v, NextTriple(u, v));
    } else {
      GcdZero(u.z);
    }
  }

  /** For operands that are not negative the divisor is right, whatever becomes of the coefficients. */
  lemma PositiveDivisor(a: nat, b: nat)
    ensures Extended(a, b).z == GcdOf(a, b)
  {
    PositiveRun(Triple(1, 0, a), Triple(0, 1, b));
  }

  /** x * v and y * u have opposite signs and differ by n: no coefficient is larger than n over the number beside it. */
  ghost predicate Crossed(x: int, u: int, y: int, v: int, n: int) {
    && ((x * v <= 0 && 0 <= y * u) || (y * u <= 0 && 0 <= x * v))
    && (x * v - y * u == n || y * u - x * v == n)
  }

  /** One exact round keeps that. */
  lemma CrossedStep(x: int, u: int, y: int, v: int, n: int, q: int, r: int)
    requires Crossed(x, u, y, v, n) && u == q * v + r && Abs(r) < Abs(v) && (r == 0 || (r < 0) == (u < 0))
    ensures Crossed(y, v, x - y * q, r, n)
  {
    RoundTerms(x, y, q, v, r, u);
    PartSign(q, v, q * v, r, u);
    SameSign(y, u, r, q * v);
  }

  lemma RoundTerms(x: int, y: int, q: int, v: int, r: int, u: int)
    requires u == q * v + r
    ensures (x - y * q) * v == x * v - y * (q * v) && y * u == y * (q * v) + y * r
  {
  }

  /** The part that the quotient takes has the sign of the dividend. */
  lemma PartSign(q: int, v: int, w: int, r: int, u: int)
    requires w == q * v && u == w + r && Abs(r) < Abs(v) && (r == 0 || (r < 0) == (u < 0))
    ensures w == 0 || (w < 0) == (u < 0)
  {
    if q == 0 {
      MulZero(v);
    } else {
      SignedTerm(Abs(q), Abs(v));
      MulMono(1, Abs(q), Abs(v));
    }
  }

  /** Both parts of u have its sign, and so their products with y have the sign of y * u. */
  lemma SameSign(y: int, u: int, r: int, w: int)
    requires u == w + r && (r == 0 || (r < 0) == (u < 0)) && (w == 0 || (w < 0) == (u < 0))
    ensures y * u >= 0 ==> y * r >= 0 && y * w >= 0
    ensures y * u <= 0 ==> y * r <= 0 && y * w <= 0
  {
    SignKeeps(y, u, r);
    SignKeeps(y, u, w);
  }

  lemma SignKeeps(y: int, u: int, r: int)
    requires r == 0 || (u != 0 && (r < 0) == (u < 0))
    ensures y * u >= 0 ==> y * r >= 0
    ensures y * u <= 0 ==> y * r <= 0
  {
    SignOf(y, u);
    SignOf(y, r);
    MulZero(y);
  }

  const SMALL: nat := 698  // twice the digits below which Toom-3 is not used

  ghost predicate Within(x: int) {
    Abs(x) < W(SMALL)
  }

  /** Two numbers long enough for Toom-3 have a product of more than SMALL digits. */
  lemma NotBothLong(x: int, q: int, w: int)
    requires Abs(x * w) < W(SMALL) && Abs(q) <= Abs(w)
    ensures Exact(x, q)
  {
    if UsesToom(x, q) {
      DigitCounts.NumDigitsBelow(Abs(x), 349);
      DigitCounts.NumDigitsBelow(Abs(q), 349);
      WAdd(349, 349);
      LargeProduct(x, w, W(349), W(349));
    }
  }

  /** Coefficients and numbers of a run on operands of at most SMALL digits. */
  ghost predicate SmallState(u: Triple, v: Triple, a: int, b: int) {
    && Within(a) && Within(b) && Within(u.z) && Within(v.z)
    && Crossed(u.x, u.z, v.x, v.z, b) && Crossed(u.y, u.z, v.y, v.z, a)
  }

  lemma CrossedBound(x: int, u: int, y: int, v: int, n: int)
    requires Crossed(x, u, y, v, n) || Crossed(x, u, y, v, -n)
    ensures Abs(y * u) <= Abs(n)
  {
  }

  lemma SmallExact(u: Triple, v: Triple, a: int, b: int)
    requires SmallState(u, v, a, b) && v.z != 0
    ensures ExactRound(u, v)
  {
    var q := TQuot(u.z, v.z);
    QuotientSmall(u.z, v.z);
    QuotientProduct(u.z, v.z);
    CrossedBound(u.x, u.z, v.x, v.z, b);
    CrossedBound(u.y, u.z, v.y, v.z, a);
    NotBothLong(v.x, q, u.z);
    NotBothLong(v.y, q, u.z);
    NotBothLong(v.z, q, q);
  }

  lemma SmallRound(u: Triple, v: Triple, a: int, b: int)
    requires SmallState(u, v, a, b) && v.z != 0
    ensures ExactRound(u, v) && SmallState(v, NextTriple(u, v), a, b)
  {
    var q, r := TQuot(u.z, v.z), TRem(u.z, v.z);
    SmallExact(u, v, a, b);
    ExactNext(u, v);
    SameDivisor(u.z, v.z);
    TDivisionHolds(u.z, v.z);
    CrossedStep(u.x, u.z, v.x, v.z, b, q, r);
    CrossedStep(u.y, u.z, v.y, v.z, a, q, r);
    NextState(v, u, NextTriple(u, v), q, r, a, b);
  }

  lemma NextState(v: Triple, u: Triple, t: Triple, q: int, r: int, a: int, b: int)
    requires Within(a) && Within(b) && Within(v.z) && Abs(r) < Abs(v.z)
    requires t == Triple(u.x - v.x * q, u.y - v.y * q, r)
    requires Crossed(v.x, v.z, u.x - v.x * q, r, b) && Crossed(v.y, v.z, u.y - v.y * q, r, a)
    ensures SmallState(v, t, a, b)
  {
  }

  lemma {:induction false} SmallRun(u: Triple, v: Triple, a: int, b: int)
    requires SmallState(u, v, a, b)
    ensures ExactRun(u, v)
    decreases Abs(u.z) + Abs(v.z), if Abs(u.z) < Abs(v.z) then 1 else 0
  {
    if v.z != 0 {
      RoundShrinks(u, v);
      SmallRound(u, v, a, b);
      SmallRun(v, NextTriple(u, v), a, b);
    }
  }

  /** Operands of at most 698 digits are short enough, too, whatever their signs. */
  lemma SmallEuclid(a: int, b: int)
    requires Size(a) <= SMALL && Size(b) <= SMALL
    ensures ExactEuclid(a, b)
  {
    DigitCounts.NumDigitsBelow(Abs(a), SMALL);
    DigitCounts.NumDigitsBelow(Abs(b), SMALL);
    SmallRun(Triple(1, 0, a), Triple(0, 1, b), a, b);
  }

  /** The quotients and remainders of a = q b + 2 and b = 2 q + 1. */
  lemma TwoRounds(q: int, a: int, b: int)
    requires q > 2 && b == 2 * q + 1 && a == q * b + 2
    ensures TQuot(a, b) == q && TQuot(b, 2) == q && TQuot(2, 1) == 2
  {
    DivUnique(a, b, q, 2);
    DivUnique(b, 2, q, 1);
    MulMono(0, q, b);
  }

  /**
   Operands of 2d + 1 and d + 1 digits whose second round multiplies -q by q, which loses a borrow: the result is not a
   combination that makes the divisor.  The least are of 699 and 350 digits, one digit above the two bounds.
   */
  lemma EuclidFails(d: nat, q: int, a: int, b: int, w: int, y: int)
    requires TOOM_MUL_CUTOFF - 1 <= d <= 1037 && q == W(d) + 1 && b == 2 * q + 1 && a == q * b + 2
    requires w == W((d + 1) / 3) && y == 1 + q * q - w
    ensures Extended(a, b) == Triple(-q, y, 1) && a * -q + b * y == 1 - b * w != 1
    ensures Size(a) == 2 * d + 1 && Size(b) == d + 1 && !ExactEuclid(a, b)
  {
    BaseOrMore(d);
    FailingRun(d, q, a, b, w, y);
    FailedSum(a, b, q, w, y);
    FailingSizes(d, q, a, b);
    NoBezout(a, b, -q, y);
  }

  lemma NoBezout(a: int, b: int, x: int, y: int)
    requires Extended(a, b) == Triple(x, y, 1) && a * x + b * y != 1
    ensures !ExactEuclid(a, b)
  {
    if ExactEuclid(a, b) {
      ExactBezout(a, b);
    }
  }

  lemma FailingSizes(d: nat, q: int, a: int, b: int)
    requires d > 0 && q == W(d) + 1 && b == 2 * q + 1 && a == q * b + 2
    ensures Size(a) == 2 * d + 1 && Size(b) == d + 1
  {
    BaseOrMore(d);
    WAdd(d, d);
    assert W(d + 1) == BASE * W(d) && W(2 * d + 1) == BASE * W(2 * d);
    FailingRange(W(d), q, a, b);
    DigitCounts.NumDigitsBelow(b, d);
    DigitCounts.NumDigitsBelow(b, d + 1);
    DigitCounts.NumDigitsBelow(a, 2 * d);
    DigitCounts.NumDigitsBelow(a, 2 * d + 1);
  }

  lemma FailingRange(w: nat, q: int, a: int, b: int)
    requires w >= BASE && q == w + 1 && b == 2 * q + 1 && a == q * b + 2
    ensures w <= b < BASE * w && w * w <= a < BASE * (w * w)
  {
    assert a == 2 * (w * w) + 5 * w + 5;
    MulMono(BASE, w, w);
  }

  lemma FailingRun(d: nat, q: int, a: int, b: int, w: int, y: int)
    requires TOOM_MUL_CUTOFF - 1 <= d <= 1037 && q == W(d) + 1 > 2 && b == 2 * q + 1 && a == q * b + 2
    requires w == W((d + 1) / 3) && y == 1 + q * q - w
    ensures EuclidRun(Triple(1, 0, a), Triple(0, 1, b)) == Triple(-q, y, 1)
  {
    var s0, s1 := Triple(1, 0, a), Triple(0, 1, b);
    var s2, s3 := Triple(1, -q, 2), Triple(-q, y, 1);
    TwoRounds(q, a, b);
    FirstRound(q, a, b);
    SecondRound(d, q, b, w, y);
    OneMoreRound(s0, s1, s2);
    OneMoreRound(s1, s2, s3);
    LastRound(s2, s3);
  }

  lemma OneMoreRound(u: Triple, v: Triple, t: Triple)
    requires v.z != 0 && t == NextTriple(u, v)
    ensures EuclidRun(u, v) == EuclidRun(v, t)
  {
  }

  lemma FirstRound(q: int, a: int, b: int)
    requires b > 0 && q > 0 && a == q * b + 2 && TQuot(a, b) == q
    ensures NextTriple(Triple(1, 0, a), Triple(0, 1, b)) == Triple(1, -q, 2)
  {
    MulZero(q);
  }

  lemma SecondRound(d: nat, q: int, b: int, w: int, y: int)
    requires TOOM_MUL_CUTOFF - 1 <= d <= 1037 && q == W(d) + 1 && b == 2 * q + 1 && w == W((d + 1) / 3)
    requires TQuot(b, 2) == q && y == 1 + q * q - w
    ensures NextTriple(Triple(0, 1, b), Triple(1, -q, 2)) == Triple(-q, y, 1)
  {
    LostProductSwapped(d, q, -q);
  }

  lemma LastRound(u: Triple, v: Triple)
    requires u.z == 2 && v.z == 1
    ensures EuclidRun(u, v) == v
  {
    var t := NextTriple(u, v);
    assert TQuot(2, 1) == 2;
    assert t.z == 0;
    assert EuclidRun(v, t) == v;
  }

  lemma FailedSum(a: int, b: int, q: int, w: int, y: int)
    requires b == 2 * q + 1 && a == q * b + 2 && b > 0 && w > 0 && y == 1 + q * q - w
    ensures a * -q + b * y == 1 - b * w != 1
  {
    assert a * -q == -((q * b) * q) - 2 * q;
    assert b * y == b + (q * b) * q - b * w;
    MulMono(1, w, b);
  }

  lemma SecondRoundSwapped(d: nat, q: int, b: int, w: int, y: int)
    requires TOOM_MUL_CUTOFF - 1 <= d <= 1037 && q == W(d) + 1 && b == 2 * q + 1 && w == W((d + 1) / 3)
    requires TQuot(b, 2) == q && y == 1 + q * q - w
    ensures NextTriple(Triple(1, 0, b), Triple(-q, 1, 2)) == Triple(y, -q, 1)
  {
    LostProductSwapped(d, q, -q);
  }

  lemma FirstRoundSwapped(q: int, a: int, b: int)
    requires b > 0 && q > 0 && a == q * b + 2 && TQuot(a, b) == q
    ensures NextTriple(Triple(0, 1, a), Triple(1, 0, b)) == Triple(-q, 1, 2)
  {
    MulZero(q);
  }

  lemma ExchangingRound(u: Triple, v: Triple)
    requires Abs(u.z) < Abs(v.z)
    ensures NextTriple(u, v) == u
  {
    QuotientSmall(u.z, v.z);
  }

  /** The same operands the other way round take one round more, which exchanges them. */
  lemma FailingRunSwapped(d: nat, q: int, a: int, b: int, w: int, y: int)
    requires TOOM_MUL_CUTOFF - 1 <= d <= 1037 && q == W(d) + 1 > 2 && b == 2 * q + 1 && a == q * b + 2 > b
    requires w == W((d + 1) / 3) && y == 1 + q * q - w
    ensures EuclidRun(Triple(1, 0, b), Triple(0, 1, a)) == Triple(y, -q, 1)
  {
    var s0, s1, s2 := Triple(1, 0, b), Triple(0, 1, a), Triple(1, 0, b);
    var s3, s4 := Triple(-q, 1, 2), Triple(y, -q, 1);
    TwoRounds(q, a, b);
    MulMono(1, q, b);
    ExchangingRound(s0, s1);
    FirstRoundSwapped(q, a, b);
    SecondRoundSwapped(d, q, b, w, y);
    OneMoreRound(s0, s1, s2);
    OneMoreRound(s1, s2, s3);
    OneMoreRound(s2, s3, s4);
    LastRound(s3, s4);
  }

  /** What mp_exteuclid is for. */
  predicate BezoutHolds(a: int, b: int) {
    var t := Extended(a, b);
    a * t.x + b * t.y == t.z == GcdOf(a, b)
  }

  /** It holds for all operands of at most m and n digits. */
  ghost predicate BezoutUpTo(m: nat, n: nat) {
    forall a: int, b: int :: Size(a) <= m && Size(b) <= n ==> BezoutHolds(a, b)
  }

  /** The least failing operands, in either order. */
  lemma BezoutFails(m: nat, n: nat)
    requires m > SMALL && n >= TOOM_MUL_CUTOFF
    ensures !BezoutUpTo(m, n) && !BezoutUpTo(n, m)
  {
    var d := TOOM_MUL_CUTOFF - 1;
    var q, w := W(d) + 1, W((d + 1) / 3);
    var b := 2 * q + 1;
    var a := q * b + 2;
    var y := 1 + q * q - w;
    BaseOrMore(d);
    MulMono(1, q, b);
    FailedSum(a, b, q, w, y);
    FailingSizes(d, q, a, b);
    FailingRun(d, q, a, b, w, y);
    FailingRunSwapped(d, q, a, b, w, y);
    assert !BezoutHolds(a, b) && !BezoutHolds(b, a);
  }

  /** The digit counts up to which mp_exteuclid can be relied on: 349 for one operand, or 698 for both. */
  lemma BezoutUpToIff(m: nat, n: nat)
    ensures BezoutUpTo(m, n) <==> m < TOOM_MUL_CUTOFF || n < TOOM_MUL_CUTOFF || (m <= SMALL && n <= SMALL)
  {
    if m < TOOM_MUL_CUTOFF || n < TOOM_MUL_CUTOFF || (m <= SMALL && n <= SMALL) {
      forall a: int, b: int | Size(a) <= m && Size(b) <= n ensures BezoutHolds(a, b) {
        if Tiny(a) || Tiny(b) {
          ShortEuclid(a, b);
        } else {
          SmallEuclid(a, b);
        }
        ExactBezout(a, b);
      }
    } else if m > SMALL {
      BezoutFails(m, n);
    } else {
      BezoutFails(n, m);
    }
  }

  // ----- mp_exteuclid

  /** A triple of numbers. */
  ghost predicate Holds3(x: MpInt, y: MpInt, z: MpInt, t: Triple)
    reads x, y, z
  {
    x.Valid() && y.Valid() && z.Valid() && x.Value() == t.x && y.Value() == t.y && z.Value() == t.z
  }

  /** "mp_mul (&v, &q, &tmp)", "mp_sub (&u, &tmp, &t)" */
  method RowMinus(u: MpInt, v: MpInt, q: MpInt) returns (t: MpInt)
    requires u.Valid() && v.Valid() && q.Valid()
    ensures fresh(t) && t.Valid() && t.Value() == u.Value() - Times(v.Value(), q.Value())
  {
    t := new MpInt();
    var word := Multiply.AnyWord();
    Product.Mul(v, q, t, word);
    AddSub.Sub(u, t, t);
  }

  /** One round of the loop, up to the copying of the triples. */
  method EuclidRound(u1: MpInt, u2: MpInt, u3: MpInt, v1: MpInt, v2: MpInt, v3: MpInt,
                     ghost u: Triple, ghost v: Triple)
    returns (t1: MpInt, t2: MpInt, t3: MpInt)
    requires Holds3(u1, u2, u3, u) && Holds3(v1, v2, v3, v) && v.z != 0
    ensures fresh(t1) && fresh(t2) && fresh(t3) && t1 != t2 && t1 != t3 && t2 != t3
    ensures Holds3(t1, t2, t3, NextTriple(u, v))
  {
    var q := new MpInt();
    var ok := LongDivision.Div(u3, v3, q, null);
    t1 := RowMinus(u1, v1, q);
    t2 := RowMinus(u2, v2, q);
    t3 := RowMinus(u3, v3, q);
  }

  /** The loop of mp_exteuclid; the copies of the triples are a renaming here. */
  method EuclidLoop(a: MpInt, b: MpInt) returns (u1: MpInt, u2: MpInt, u3: MpInt)
    requires a.Valid() && b.Valid()
    ensures fresh(u1) && fresh(u2) && fresh(u3) && u1 != u2 && u1 != u3 && u2 != u3
    ensures Holds3(u1, u2, u3, EuclidRun(Triple(1, 0, a.Value()), Triple(0, 1, b.Value())))
  {
    var v1, v2, v3;
    u3, u1, u2 := Inverse.StartRow(a, 1, 0);
    v3, v1, v2 := Inverse.StartRow(b, 0, 1);
    ghost var u, v := Triple(1, 0, a.Value()), Triple(0, 1, b.Value());
    ghost var end := EuclidRun(u, v);
    var again := Inverse.NotZero(v3);
    while again
      invariant fresh(u1) && fresh(u2) && fresh(u3) && u1 != u2 && u1 != u3 && u2 != u3
      invariant fresh(v1) && fresh(v2) && fresh(v3) && v1 != v2 && v1 != v3 && v2 != v3
      invariant Holds3(u1, u2, u3, u) && Holds3(v1, v2, v3, v) && (again <==> v.z != 0)
      invariant EuclidRun(u, v) == end
      decreases Abs(u.z) + Abs(v.z), if Abs(u.z) < Abs(v.z) then 1 else 0
    {
      var t1, t2, t3 := EuclidRound(u1, u2, u3, v1, v2, v3, u, v);
      RoundShrinks(u, v);
      u, v := v, NextTriple(u, v);
      u1, u2, u3 := v1, v2, v3;
      v1, v2, v3 := t1, t2, t3;
      again := Inverse.NotZero(v3);
    }
  }

  /** mp_neg in place. */
  method Negate(a: MpInt)
    requires a.Valid()
    modifies a
    ensures a.Valid() && a.Value() == -old(a.Value())
  {
    MagBounds(a);
    if a.used != 0 {
      a.neg := !a.neg;
    }
  }

  /** "make sure U3 >= 0" */
  method MakePositive(u1: MpInt, u2: MpInt, u3: MpInt)
    requires u1.Valid() && u2.Valid() && u3.Valid() && u1 != u2 && u1 != u3 && u2 != u3
    modifies u1, u2, u3
    ensures u1.Valid() && u2.Valid() && u3.Valid() && u3.Value() == Abs(old(u3.Value()))
    ensures u1.Value() == if old(u3.Value()) < 0 then -old(u1.Value()) else old(u1.Value())
    ensures u2.Value() == if old(u3.Value()) < 0 then -old(u2.Value()) else old(u2.Value())
  {
    MagBounds(u3);
    if u3.neg {
      Negate(u1);
      Negate(u2);
      Negate(u3);
    }
  }

  /** "copy result out": each output may be null. */
  method StoreTriple(u1: MpInt, u2: MpInt, u3: MpInt, U1: MpInt?, U2: MpInt?, U3: MpInt?)
    requires u1.Valid() && u2.Valid() && u3.Valid()
    requires U1 !in {u1, u2, u3} && U2 !in {u1, u2, u3} && U3 !in {u1, u2, u3}
    requires (U1 != null ==> U1 != U2 && U1 != U3) && (U2 != null ==> U2 != U3)
    modifies U1, U2, U3
    ensures U1 != null ==> U1.Valid() && U1.Value() == old(u1.Value())
    ensures U2 != null ==> U2.Valid() && U2.Value() == old(u2.Value())
    ensures U3 != null ==> U3.Valid() && U3.Value() == old(u3.Value())
  {
    StoreOne(u1, U1);
    StoreOne(u2, U2);
    StoreOne(u3, U3);
  }

  method StoreOne(u: MpInt, U: MpInt?)
    requires u.Valid() && u != U
    modifies U
    ensures U != null ==> U.Valid() && U.Value() == u.Value()
  {
    if U != null {
      Move(u, U);
    }
  }

  /**
   mp_exteuclid, for any operands: the result of the run with a U3 that is not negative.  For operands whose products on
   the way mp_mul gets right, as it does when one has less than 350 digits or both have at most 698, a * U1 + b * U2 is
   U3, the greatest common divisor; for operands that are not negative U3 is the divisor in any case.  Outputs that are
   null are not stored.
   */
  method ExtEuclid(a: MpInt, b: MpInt, U1: MpInt?, U2: MpInt?, U3: MpInt?) returns (ghost t: Triple)
    requires a.Valid() && b.Valid()
    requires (U1 != null ==> U1 != U2 && U1 != U3) && (U2 != null ==> U2 != U3)
    modifies U1, U2, U3
    ensures t == Extended(old(a.Value()), old(b.Value())) && t.z >= 0
    ensures ExactEuclid(old(a.Value()), old(b.Value())) ==>
              old(a.Value()) * t.x + old(b.Value()) * t.y == t.z == GcdOf(old(a.Value()), old(b.Value()))
    ensures old(a.Value()) >= 0 && old(b.Value()) >= 0 ==> t.z == GcdOf(old(a.Value()), old(b.Value()))
    ensures U1 != null ==> U1.Valid() && U1.Value() == t.x
    ensures U2 != null ==> U2.Valid() && U2.Value() == t.y
    ensures U3 != null ==> U3.Valid() && U3.Value() == t.z
  {
    ghost var va, vb := a.Value(), b.Value();
    var u1, u2, u3 := EuclidLoop(a, b);
    t := Extended(va, vb);
    if ExactEuclid(va, vb) {
      ExactBezout(va, vb);
    }
    if va >= 0 && vb >= 0 {
      PositiveDivisor(va, vb);
    }
    MakePositive(u1, u2, u3);
    StoreTriple(u1, u2, u3, U1, U2, U3);
  }
}
