/**
 mp_mul and the divide-and-conquer products behind it.  What they compute is stated by `ToomThree.Times`; they keep the
 digits above `used` clean, except that the comba product leaves one word there.
 */
module Product {
  import opened Arith
  import opened Radix
  import opened MpInts
  import opened AddSub
  import SingleDigit
  import opened Bits
  import opened Multiply
  import DigitDivision
  import opened DigitCounts
  import opened ToomThree

  // ----- interpolation, in place

  ghost predicate Five(w0: MpInt, w1: MpInt, w2: MpInt, w3: MpInt, w4: MpInt)
    reads w0, w1, w2, w3, w4
  {
    && w0.Valid() && w1.Valid() && w2.Valid() && w3.Valid() && w4.Valid()
    && w1 != w0 && w1 != w2 && w1 != w3 && w1 != w4
    && w2 != w0 && w2 != w3 && w2 != w4 && w3 != w0 && w3 != w4
  }

  ghost predicate Values(w1: MpInt, w2: MpInt, w3: MpInt, v1: int, v2: int, v3: int)
    requires w1.used <= |w1.dp| && w2.used <= |w2.dp| && w3.used <= |w3.dp|
    reads w1, w2, w3
  {
    w1.Value() == v1 && w2.Value() == v2 && w3.Value() == v3
  }

  /** The five numbers have these values. */
  ghost predicate FiveValues(w0: MpInt, w1: MpInt, w2: MpInt, w3: MpInt, w4: MpInt, r: Coefficients)
    requires Five(w0, w1, w2, w3, w4)
    reads w0, w1, w2, w3, w4
  {
    w0.Value() == r.c0 && w4.Value() == r.c4 && Values(w1, w2, w3, r.c1, r.c2, r.c3)
  }

  /** mp_div_2 in place. */
  method HalveInPlace(w: MpInt)
    requires w.Valid()
    modifies w
    ensures w.Valid() && w.Value() == Half(old(w.Value()))
  {
    MagBounds(w);
    Div2(w, w);
    MagBounds(w);
  }

  /** mp_div_3 in place. */
  method ThirdInPlace(w: MpInt)
    requires w.Valid()
    modifies w
    ensures w.Valid() && w.Value() == Third(old(w.Value()))
  {
    MagBounds(w);
    var d := DigitDivision.Div3(w, w);
    MagBounds(w);
  }

  /** w1 = w1 - 8 * w0, through a temporary. */
  method SubtractEight(w: MpInt, x: MpInt)
    requires w.Valid() && x.Valid() && w != x
    modifies w
    ensures w.Valid() && w.Value() == old(w.Value()) - 8 * x.Value()
  {
    var tmp1 := new MpInt();
    SingleDigit.Mul2d(x, 3, tmp1);
    MagBounds(tmp1);
    MagBounds(x);
    assert Pow2(3) == 8;
    Sub(w, tmp1, w);
  }

  /** r1 - r4, r3 - r0, r1 / 2, r3 / 2 */
  method Interpolate1(w0: MpInt, w1: MpInt, w2: MpInt, w3: MpInt, w4: MpInt)
    requires Five(w0, w1, w2, w3, w4)
    modifies w1, w3
    ensures Five(w0, w1, w2, w3, w4)
    ensures w1.Value() == Half(old(w1.Value()) - w4.Value()) && w3.Value() == Half(old(w3.Value()) - w0.Value())
  {
    Sub(w1, w4, w1);
    Sub(w3, w0, w3);
    HalveInPlace(w1);
    HalveInPlace(w3);
  }

  /** r2 - r0 - r4, r1 - r2, r3 - r2 */
  method Interpolate2(w0: MpInt, w1: MpInt, w2: MpInt, w3: MpInt, w4: MpInt)
    requires Five(w0, w1, w2, w3, w4)
    modifies w1, w2, w3
    ensures Five(w0, w1, w2, w3, w4)
    ensures w2.Value() == old(w2.Value()) - w0.Value() - w4.Value()
    ensures w1.Value() == old(w1.Value()) - w2.Value() && w3.Value() == old(w3.Value()) - w2.Value()
  {
    Sub(w2, w0, w2);
    Sub(w2, w4, w2);
    Sub(w1, w2, w1);
    Sub(w3, w2, w3);
  }

  /** r1 - 8r0, r3 - 8r4, 3r2 - r1 - r3 */
  method Interpolate3(w0: MpInt, w1: MpInt, w2: MpInt, w3: MpInt, w4: MpInt)
    requires Five(w0, w1, w2, w3, w4)
    modifies w1, w2, w3
    ensures Five(w0, w1, w2, w3, w4)
    ensures w1.Value() == old(w1.Value()) - 8 * w0.Value() && w3.Value() == old(w3.Value()) - 8 * w4.Value()
    ensures w2.Value() == 3 * old(w2.Value()) - w1.Value() - w3.Value()
  {
    SubtractEight(w1, w0);
    SubtractEight(w3, w4);
    SingleDigit.MulD(w2, 3, w2);
    Sub(w2, w1, w2);
    Sub(w2, w3, w2);
  }

  /** r1 - r2, r3 - r2, r1 / 3, r3 / 3 */
  method Interpolate4(w0: MpInt, w1: MpInt, w2: MpInt, w3: MpInt, w4: MpInt, ghost x1: int, ghost x3: int)
    requires Five(w0, w1, w2, w3, w4) && w1.Value() - w2.Value() == x1 && w3.Value() - w2.Value() == x3
    modifies w1, w3
    ensures Five(w0, w1, w2, w3, w4) && w1.Value() == Third(x1) && w3.Value() == Third(x3)
  {
    Sub(w1, w2, w1);
    Sub(w3, w2, w3);
    ThirdInPlace(w1);
    ThirdInPlace(w3);
  }

  /** The steps between the halvings and the divisions by three. */
  method InterpolateMiddle(w0: MpInt, w1: MpInt, w2: MpInt, w3: MpInt, w4: MpInt, ghost r: Coefficients, ghost h1: int,
                           ghost h3: int)
    requires Five(w0, w1, w2, w3, w4) && w0.Value() == r.c0 && w4.Value() == r.c4 && Values(w1, w2, w3, h1, r.c2, h3)
    modifies w1, w2, w3
    ensures Five(w0, w1, w2, w3, w4)
    ensures w1.Value() - w2.Value() == MiddleOf(r, h1, h3).x1 && w2.Value() == MiddleOf(r, h1, h3).c2
    ensures w3.Value() - w2.Value() == MiddleOf(r, h1, h3).x3
  {
    Interpolate2(w0, w1, w2, w3, w4);
    Interpolate3(w0, w1, w2, w3, w4);
  }

  /** All the steps, on any five numbers. */
  method Interpolate(w0: MpInt, w1: MpInt, w2: MpInt, w3: MpInt, w4: MpInt, ghost r: Coefficients)
    requires Five(w0, w1, w2, w3, w4) && FiveValues(w0, w1, w2, w3, w4, r)
    modifies w1, w2, w3
    ensures Five(w0, w1, w2, w3, w4) && FiveValues(w0, w1, w2, w3, w4, Interpolated(r))
  {
    ghost var h1, h3 := Half(r.c1 - r.c4), Half(r.c3 - r.c0);
    InterpolatedIs(r, MiddleOf(r, h1, h3));
    Interpolate1(w0, w1, w2, w3, w4);
    FinishInterpolation(w0, w1, w2, w3, w4, r, h1, h3, MiddleOf(r, h1, h3));
  }

  method FinishInterpolation(w0: MpInt, w1: MpInt, w2: MpInt, w3: MpInt, w4: MpInt, ghost r: Coefficients,
                             ghost h1: int, ghost h3: int, ghost m: Middle)
    requires Five(w0, w1, w2, w3, w4) && w0.Value() == r.c0 && w4.Value() == r.c4 && Values(w1, w2, w3, h1, r.c2, h3)
    requires m == MiddleOf(r, h1, h3)
    modifies w1, w2, w3
    ensures Five(w0, w1, w2, w3, w4) && FiveValues(w0, w1, w2, w3, w4, Ends(m, r.c0, r.c4))
  {
    InterpolateMiddle(w0, w1, w2, w3, w4, r, h1, h3);
    Interpolate4(w0, w1, w2, w3, w4, m.x1, m.x3);
  }

  // ----- recombination

  /** A coefficient after its shift: clamped, or zero with some digits in use. */
  ghost predicate Shifted(x: MpInt)
    reads x
  {
    x.Valid() || (x.Proper() && x.Mag() == 0 && !x.neg)
  }

  lemma WrapsTo(m: nat, u: nat, w: nat)
    requires m < W(u) && u <= w
    ensures (0 - m) % W(w) == (if m == 0 then 0 else W(w) - m) && m % W(w) == m
  {
    WMono(u, w);
    DivUnique(0 - m, W(w), if m == 0 then 0 else -1, if m == 0 then 0 else W(w) - m);
    DivUnique(m, W(w), 0, m);
  }

  method AddShifted(x: MpInt, y: MpInt, c: MpInt)
    requires Shifted(x) && Shifted(y) && c.used <= |c.dp|
    modifies c
    ensures c.Valid() && c.Value() == old(x.Value() + y.Value() + Slip(x.used, x.Value(), y.used, y.Value()))
    ensures old(c.Clean()) ==> c.Clean()
  {
    ValBound(x.dp, 0, x.used);
    ValBound(y.dp, 0, y.used);
    WrapsTo(x.Mag(), x.used, x.used);
    WrapsTo(y.Mag(), y.used, y.used);
    if x.used <= y.used {
      WrapsTo(x.Mag(), x.used, y.used);
    } else {
      WrapsTo(y.Mag(), y.used, x.used);
    }
    ZeroIsPositive(x);
    ZeroIsPositive(y);
    Add(x, y, c);
  }

  lemma ZeroIsPositive(x: MpInt)
    requires Shifted(x)
    ensures x.neg ==> x.Mag() > 0
  {
    if x.Valid() {
      MagBounds(x);
    }
  }

  /** mp_lshd of a coefficient. */
  method ShiftCoefficient(x: MpInt, b: nat)
    requires x.Valid()
    modifies x
    ensures Shifted(x) && x.Value() == old(x.Value()) * W(b) && x.used == old(x.used) + b
  {
    MagBounds(x);
    SignedTerm(x.Mag(), W(b));
    Lshd(x, b);
  }

  /** Shift the coefficients to their places. */
  method ShiftAll(w0: MpInt, w1: MpInt, w2: MpInt, w3: MpInt, w4: MpInt, n: nat)
    requires Five(w0, w1, w2, w3, w4) && w0 != w4
    modifies w1, w2, w3, w4
    ensures w0.Valid() && w1.used <= |w1.dp| && w2.used <= |w2.dp| && w3.used <= |w3.dp|
    ensures Shifted(w1) && Shifted(w2) && Shifted(w3) && Shifted(w4)
    ensures Values(w1, w2, w3, old(w1.Value()) * W(n), old(w2.Value()) * W(2 * n), old(w3.Value()) * W(3 * n))
    ensures w4.Value() == old(w4.Value()) * W(4 * n)
    ensures w1.used == old(w1.used) + n && w2.used == old(w2.used) + 2 * n && w3.used == old(w3.used) + 3 * n
    ensures w4.used == old(w4.used) + 4 * n
  {
    ShiftCoefficient(w1, n);
    ShiftCoefficient(w2, 2 * n);
    ShiftCoefficient(w3, 3 * n);
    ShiftCoefficient(w4, 4 * n);
  }

  /** The final additions. */
  method AddAll(w0: MpInt, w1: MpInt, w2: MpInt, w3: MpInt, w4: MpInt, c: MpInt)
    requires w0.Valid() && Shifted(w1) && Shifted(w2) && Shifted(w3) && Shifted(w4) && c.Valid()
    requires c != w0 && c != w1 && c != w2 && c != w3 && c != w4
    modifies c
    ensures c.Valid() && (old(c.Clean()) ==> c.Clean())
    ensures var low := w0.Value() + w1.Value() + Slip(w0.used, w0.Value(), w1.used, w1.Value());
            var high := w2.Value() + w3.Value() + Slip(w2.used, w2.Value(), w3.used, w3.Value());
            c.Value() == low + (w4.Value() + high + Slip(w4.used, w4.Value(), NumDigits(Abs(high)), high))
  {
    var tmp1 := new MpInt();
    AddShifted(w0, w1, c);
    AddShifted(w2, w3, tmp1);
    SizeOf(tmp1);
    AddShifted(w4, tmp1, tmp1);
    Add(tmp1, c, c);
  }

  lemma SizeOf(x: MpInt)
    requires x.Valid()
    ensures x.used == NumDigits(Abs(x.Value()))
  {
    MagBounds(x);
    UsedIsNumDigits(x);
  }

  /** The coefficients are shifted and added. */
  method Recombine(w0: MpInt, w1: MpInt, w2: MpInt, w3: MpInt, w4: MpInt, c: MpInt, n: nat, ghost p: Coefficients)
    requires Five(w0, w1, w2, w3, w4) && w0 != w4 && c.Valid() && FiveValues(w0, w1, w2, w3, w4, p)
    requires c != w0 && c != w1 && c != w2 && c != w3 && c != w4
    modifies w1, w2, w3, w4, c
    ensures c.Valid() && c.Value() == Recombined(p, n)
    ensures old(c.Clean()) ==> c.Clean()
  {
    SizeOf(w0);
    SizeOf(w1);
    SizeOf(w2);
    SizeOf(w3);
    SizeOf(w4);
    ShiftAll(w0, w1, w2, w3, w4, n);
    AddAll(w0, w1, w2, w3, w4, c);
    RecombinedIs(p, n, w1.Value(), w2.Value(), w3.Value(), w4.Value(), w0.used, w1.used, w2.used, w3.used, w4.used,
                 c.Value());
  }

  lemma RecombinedIs(p: Coefficients, n: nat, v1: int, v2: int, v3: int, v4: int, u0: nat, u1: nat, u2: nat, u3: nat,
                     u4: nat, r: int)
    requires v1 == p.c1 * W(n) && v2 == p.c2 * W(2 * n) && v3 == p.c3 * W(3 * n) && v4 == p.c4 * W(4 * n)
    requires u0 == Size(p.c0) && u1 == Size(p.c1) + n && u2 == Size(p.c2) + 2 * n && u3 == Size(p.c3) + 3 * n
    requires u4 == Size(p.c4) + 4 * n
    requires var low, high := p.c0 + v1 + Slip(u0, p.c0, u1, v1), v2 + v3 + Slip(u2, v2, u3, v3);
             r == low + (v4 + high + Slip(u4, v4, Size(high), high))
    ensures r == Recombined(p, n)
  {
  }

  // ----- Karatsuba

  /** The n low digits of a, clamped. */
  method LowHalf(a: MpInt, n: nat) returns (x: MpInt)
    requires a.Valid() && n < a.used
    ensures fresh(x) && x.Valid() && !x.neg && x.Mag() == Val(a.dp, 0, n) && x.used <= n
  {
    x := new MpInt();
    x.dp, x.used := a.dp[..n], n;
    ValSame(x.dp, a.dp, 0, n);
    x.Clamp();
  }

  /** The digits of a from n up; the top one is not zero. */
  method HighHalf(a: MpInt, n: nat) returns (x: MpInt)
    requires a.Valid() && n < a.used
    ensures fresh(x) && x.Valid() && !x.neg && x.Mag() == Val(a.dp, n, a.used) && x.used == a.used - n
  {
    x := new MpInt();
    x.dp, x.used := a.dp[n..a.used], a.used - n;
    ValMoved(x.dp, 0, a.dp, n, a.used - n);
  }

  /** The two halves of a number's digits, with the sign dropped. */
  method Halves(a: MpInt, n: nat) returns (x0: MpInt, x1: MpInt)
    requires a.Valid() && 0 < n < a.used
    ensures fresh(x0) && fresh(x1) && x0 != x1 && x0.Valid() && x1.Valid() && !x0.neg && !x1.neg
    ensures a.Mag() == x0.Mag() + W(n) * x1.Mag() && x0.used <= n && x1.used == a.used - n
  {
    ValSplit(a.dp, 0, n, a.used);
    x0 := LowHalf(a, n);
    x1 := HighHalf(a, n);
  }

  lemma KaratsubaIdentity(x0: nat, x1: nat, y0: nat, y1: nat, w: nat, w2: nat, mid: int, a: int, b: int)
    requires a == x0 + w * x1 && b == y0 + w * y1 && w2 == w * w
    requires mid == (x1 + x0) * (y1 + y0) - (x0 * y0 + x1 * y1)
    ensures mid >= 0 && 0 <= x0 * y0 && 0 <= x1 * y1 && a * b == x0 * y0 + mid * w + (x1 * y1) * w2
  {
    Expand(x0, x1, 0, y0, y1, 0, 1, w, 0);
    Expand(x0, x1, 0, y0, y1, 0, 1, 1, 0);
    assert mid == x0 * y1 + x1 * y0;
    MulMono(0, x0, y1);
    MulMono(0, x1, y0);
    MulMono(0, x0, y0);
    MulMono(0, x1, y1);
  }

  /** "x0y0 + (t1 - x0y0 - x1y1) << B + x1y1 << 2B" */
  method KaratsubaCombine(x0y0: MpInt, x1y1: MpInt, t1: MpInt, c: MpInt, n: nat,
                          ghost x0: nat, ghost x1: nat, ghost y0: nat, ghost y1: nat, ghost a: nat, ghost b: nat)
    requires x0y0.Valid() && x1y1.Valid() && t1.Valid() && c.Valid() && !x0y0.neg && !x1y1.neg && !t1.neg
    requires x0y0 != x1y1 && x0y0 != t1 && x1y1 != t1 && c != x1y1 && c != t1 && c != x0y0
    requires a == x0 + W(n) * x1 && b == y0 + W(n) * y1
    requires x0y0.Mag() == x0 * y0 && x1y1.Mag() == x1 * y1 && t1.Mag() == (x1 + x0) * (y1 + y0)
    modifies x0y0, x1y1, t1, c
    ensures c.Valid() && !c.neg && c.Value() == a * b
    ensures old(c.Clean()) ==> c.Clean()
  {
    WAdd(n, n);
    KaratsubaIdentity(x0, x1, y0, y1, W(n), W(2 * n), t1.Mag() - (x0y0.Mag() + x1y1.Mag()), a, b);
    SubtractOuter(x0y0, x1y1, t1);
    Lshd(t1, n);
    Lshd(x1y1, 2 * n);
    Add(x0y0, t1, t1);
    MagBounds(t1);
    Add(t1, x1y1, c);
    MagBounds(c);
  }

  method SubtractOuter(x0y0: MpInt, x1y1: MpInt, t1: MpInt)
    requires x0y0.Valid() && x1y1.Valid() && t1.Valid() && !x0y0.neg && !x1y1.neg && !t1.neg
    requires x0y0 != t1 && x1y1 != t1 && t1.Mag() >= x0y0.Mag() + x1y1.Mag()
    modifies t1
    ensures t1.Valid() && !t1.neg && t1.Mag() == old(t1.Mag()) - x0y0.Mag() - x1y1.Mag()
  {
    var x0 := new MpInt();
    Add(x0y0, x1y1, x0);
    MagBounds(x0);
    UsedMono(x0, t1);
    SSub(t1, x0, t1);
  }

  /** mp_karatsuba_mul: c = |a| * |b| */
  method KaratsubaMul(a: MpInt, b: MpInt, c: MpInt)
    requires a.Valid() && b.Valid() && c.Valid() && a.used >= KARATSUBA_MUL_CUTOFF && b.used >= KARATSUBA_MUL_CUTOFF
    modifies c
    ensures c.Valid() && !c.neg && c.Value() == old(a.Mag()) * old(b.Mag())
    ensures old(c.Clean()) ==> c.Clean()
    decreases a.used + b.used, 2
  {
    var n := Min(a.used, b.used) / 2;
    ghost var am, bm := a.Mag(), b.Mag();
    var x0, x1 := Halves(a, n);
    var y0, y1 := Halves(b, n);
    ghost var m0, m1, k0, k1 := x0.Mag(), x1.Mag(), y0.Mag(), y1.Mag();
    var x0y0, x1y1, t1 := KaratsubaProducts(x0, x1, y0, y1, a.used + b.used);
    KaratsubaCombine(x0y0, x1y1, t1, c, n, m0, m1, k0, k1, am, bm);
  }

  method SumOf(x: MpInt, y: MpInt) returns (s: MpInt)
    requires x.Valid() && y.Valid() && y.used <= x.used
    ensures fresh(s) && s.Valid() && !s.neg && s.Mag() == x.Mag() + y.Mag() && s.used <= x.used + 1
  {
    s := new MpInt();
    SAdd(x, y, s);
  }

  /** The three half-size products. */
  method KaratsubaProducts(x0: MpInt, x1: MpInt, y0: MpInt, y1: MpInt, ghost bound: nat)
    returns (x0y0: MpInt, x1y1: MpInt, t1: MpInt)
    requires x0.Valid() && x1.Valid() && y0.Valid() && y1.Valid() && !x0.neg && !x1.neg && !y0.neg && !y1.neg
    requires x0.used <= x1.used && y0.used <= y1.used && x1.used + y1.used + 2 < bound
    ensures fresh(x0y0) && fresh(x1y1) && fresh(t1) && x0y0 != x1y1 && x0y0 != t1 && x1y1 != t1
    ensures x0y0.Valid() && x1y1.Valid() && t1.Valid() && !x0y0.neg && !x1y1.neg && !t1.neg
    ensures x0y0.Mag() == x0.Mag() * y0.Mag() && x1y1.Mag() == x1.Mag() * y1.Mag()
    ensures t1.Mag() == (x1.Mag() + x0.Mag()) * (y1.Mag() + y0.Mag())
    decreases bound, 1
  {
    x0y0 := MulPositive(x0, y0, bound);
    x1y1 := MulPositive(x1, y1, bound);
    var s := SumOf(x1, x0);
    var t := SumOf(y1, y0);
    t1 := MulPositive(s, t, bound);
  }

  /** mp_mul of two numbers that are not negative, into a fresh one. */
  method MulPositive(x: MpInt, y: MpInt, ghost bound: nat) returns (w: MpInt)
    requires x.Valid() && y.Valid() && !x.neg && !y.neg && x.used + y.used < bound
    ensures fresh(w) && w.Valid() && !w.neg && w.Mag() == x.Mag() * y.Mag()
    decreases bound, 0
  {
    w := new MpInt();
    ghost var m, k := x.Mag(), y.Mag();
    var word := AnyWord();
    Mul(x, y, w, word);
    MagBounds(w);
    MulMono(0, m, k);
  }

  // ----- Toom-3

  lemma PartsOf(a: MpInt, n: nat)
    requires a.Valid()
    ensures Pow2(DIGIT_BIT * n) == W(n) && Abs(a.Value()) == a.Mag() && (a.neg <==> a.Value() < 0)
  {
    WIsPow2(n);
    MagBounds(a);
  }

  method LowThird(a: MpInt, n: nat) returns (a0: MpInt)
    requires a.Valid()
    ensures fresh(a0) && a0.Valid() && a0.Value() == Low(a.Value(), n)
  {
    PartsOf(a, n);
    a0 := new MpInt();
    Mod2d(a, DIGIT_BIT * n, a0);
    MagBounds(a0);
  }

  method MidThird(a: MpInt, n: nat) returns (a1: MpInt)
    requires a.Valid()
    ensures fresh(a1) && a1.Valid() && a1.Value() == Mid(a.Value(), n)
  {
    PartsOf(a, n);
    ghost var m := a.Mag() / W(n);
    a1 := new MpInt();
    Copy(a, a1);
    Rshd(a1, n);
    MagBounds(a1);
    Mod2d(a1, DIGIT_BIT * n, a1);
    MagBounds(a1);
    assert a1.Mag() == m % W(n);
    DivUnique(0, W(n), 0, 0);
  }

  method HighThird(a: MpInt, n: nat) returns (a2: MpInt)
    requires a.Valid()
    ensures fresh(a2) && a2.Valid() && a2.Value() == High(a.Value(), n)
  {
    PartsOf(a, n);
    a2 := new MpInt();
    Copy(a, a2);
    Rshd(a2, n * 2);
    MagBounds(a2);
    HighOf(a.Value(), a.neg, a.Mag(), n, a2.Mag());
  }

  lemma HighOf(v: int, neg: bool, m: nat, n: nat, h: nat)
    requires m == Abs(v) && (neg <==> v < 0) && h == m / W(n * 2)
    ensures High(v, n) == if neg then -(h as int) else h
  {
  }

  /** "a = a2 * B**2 + a1 * B + a0" */
  method Thirds(a: MpInt, n: nat) returns (a0: MpInt, a1: MpInt, a2: MpInt)
    requires a.Valid()
    ensures fresh(a0) && fresh(a1) && fresh(a2) && a0.Valid() && a1.Valid() && a2.Valid()
    ensures a0.Value() == Low(a.Value(), n) && a1.Value() == Mid(a.Value(), n) && a2.Value() == High(a.Value(), n)
  {
    a0 := LowThird(a, n);
    a1 := MidThird(a, n);
    a2 := HighThird(a, n);
  }

  /** z + 2(y + 2x), with mp_mul_2 and mp_add. */
  method EvalAtTwo(x: MpInt, y: MpInt, z: MpInt) returns (t: MpInt)
    requires x.Valid() && y.Valid() && z.Valid()
    ensures fresh(t) && t.Valid() && t.Value() == Eval(x.Value(), y.Value(), z.Value())
  {
    t := new MpInt();
    Mul2(x, t);
    Add(t, y, t);
    Mul2(t, t);
    Add(t, z, t);
  }

  method EvalAtOne(x: MpInt, y: MpInt, z: MpInt) returns (t: MpInt)
    requires x.Valid() && y.Valid() && z.Valid()
    ensures fresh(t) && t.Valid() && t.Value() == Total(x.Value(), y.Value(), z.Value())
  {
    t := new MpInt();
    Add(x, y, t);
    Add(t, z, t);
  }

  /** A sub-product of Toom-3. */
  method SubProduct(x: MpInt, y: MpInt, ghost bound: nat) returns (w: MpInt)
    requires x.Valid() && y.Valid() && NumDigits(Abs(x.Value())) + NumDigits(Abs(y.Value())) < bound
    ensures fresh(w) && w.Valid() && w.Value() == Times(x.Value(), y.Value())
    decreases bound, 0
  {
    w := new MpInt();
    SizeOf(x);
    SizeOf(y);
    var word := AnyWord();
    Mul(x, y, w, word);
  }

  /** The product of the two polynomials' values at two. */
  method ProductAtTwo(x: MpInt, y: MpInt, z: MpInt, u: MpInt, v: MpInt, w: MpInt, ghost bound: nat) returns (r: MpInt)
    requires x.Valid() && y.Valid() && z.Valid() && u.Valid() && v.Valid() && w.Valid()
    requires NumDigits(Abs(Eval(x.Value(), y.Value(), z.Value())))
        + NumDigits(Abs(Eval(u.Value(), v.Value(), w.Value()))) < bound
    ensures fresh(r) && r.Valid()
    ensures r.Value() == Times(Eval(x.Value(), y.Value(), z.Value()), Eval(u.Value(), v.Value(), w.Value()))
    decreases bound, 1
  {
    var tmp1 := EvalAtTwo(x, y, z);
    var tmp2 := EvalAtTwo(u, v, w);
    r := SubProduct(tmp1, tmp2, bound);
  }

  /** The product of the two polynomials' values at one. */
  method ProductAtOne(x: MpInt, y: MpInt, z: MpInt, u: MpInt, v: MpInt, w: MpInt, ghost bound: nat) returns (r: MpInt)
    requires x.Valid() && y.Valid() && z.Valid() && u.Valid() && v.Valid() && w.Valid()
    requires NumDigits(Abs(Total(x.Value(), y.Value(), z.Value())))
        + NumDigits(Abs(Total(u.Value(), v.Value(), w.Value()))) < bound
    ensures fresh(r) && r.Valid()
    ensures r.Value() == Times(Total(x.Value(), y.Value(), z.Value()), Total(u.Value(), v.Value(), w.Value()))
    decreases bound, 1
  {
    var tmp1 := EvalAtOne(x, y, z);
    var tmp2 := EvalAtOne(u, v, w);
    r := SubProduct(tmp1, tmp2, bound);
  }

  ghost predicate PartsAre(a0: MpInt, a1: MpInt, a2: MpInt, a: int, n: nat)
    reads a0, a1, a2
  {
    && a0.Valid() && a1.Valid() && a2.Valid()
    && a0.Value() == Low(a, n) && a1.Value() == Mid(a, n) && a2.Value() == High(a, n)
  }

  method OuterProducts(a0: MpInt, a1: MpInt, a2: MpInt, b0: MpInt, b1: MpInt, b2: MpInt, ghost a: int, ghost b: int,
                       ghost n: nat)
    returns (w0: MpInt, w4: MpInt)
    requires UsesToom(a, b) && n == ThirdOf(a, b) && PartsAre(a0, a1, a2, a, n) && PartsAre(b0, b1, b2, b, n)
    ensures fresh(w0) && fresh(w4) && w0 != w4 && w0.Valid() && w4.Valid()
    ensures w0.Value() == Times(Low(a, n), Low(b, n)) && w4.Value() == Times(High(a, n), High(b, n))
    decreases NumDigits(Abs(a)) + NumDigits(Abs(b)), 2
  {
    ghost var bound := NumDigits(Abs(a)) + NumDigits(Abs(b));
    PartSizes(a, n);
    PartSizes(b, n);
    w0 := SubProduct(a0, b0, bound);
    w4 := SubProduct(a2, b2, bound);
  }

  method ProductsAtTwo(a0: MpInt, a1: MpInt, a2: MpInt, b0: MpInt, b1: MpInt, b2: MpInt, ghost a: int, ghost b: int,
                       ghost n: nat)
    returns (w1: MpInt, w3: MpInt)
    requires UsesToom(a, b) && n == ThirdOf(a, b) && PartsAre(a0, a1, a2, a, n) && PartsAre(b0, b1, b2, b, n)
    ensures fresh(w1) && fresh(w3) && w1 != w3 && w1.Valid() && w3.Valid()
    ensures w1.Value() == Times(Eval(Low(a, n), Mid(a, n), High(a, n)), Eval(Low(b, n), Mid(b, n), High(b, n)))
    ensures w3.Value() == Times(Eval(High(a, n), Mid(a, n), Low(a, n)), Eval(High(b, n), Mid(b, n), Low(b, n)))
    decreases NumDigits(Abs(a)) + NumDigits(Abs(b)), 2
  {
    ghost var bound := NumDigits(Abs(a)) + NumDigits(Abs(b));
    PartSizes(a, n);
    PartSizes(b, n);
    w1 := ProductAtTwo(a0, a1, a2, b0, b1, b2, bound);
    w3 := ProductAtTwo(a2, a1, a0, b2, b1, b0, bound);
  }

  method MiddleProduct(a0: MpInt, a1: MpInt, a2: MpInt, b0: MpInt, b1: MpInt, b2: MpInt, ghost a: int, ghost b: int,
                       ghost n: nat)
    returns (w2: MpInt)
    requires UsesToom(a, b) && n == ThirdOf(a, b) && PartsAre(a0, a1, a2, a, n) && PartsAre(b0, b1, b2, b, n)
    ensures fresh(w2) && w2.Valid()
    ensures w2.Value() == Times(Total(High(a, n), Mid(a, n), Low(a, n)), Total(High(b, n), Mid(b, n), Low(b, n)))
    decreases NumDigits(Abs(a)) + NumDigits(Abs(b)), 2
  {
    PartSizes(a, n);
    PartSizes(b, n);
    w2 := ProductAtOne(a2, a1, a0, b2, b1, b0, NumDigits(Abs(a)) + NumDigits(Abs(b)));
  }

  /** The five products. */
  method ToomProducts(a0: MpInt, a1: MpInt, a2: MpInt, b0: MpInt, b1: MpInt, b2: MpInt, ghost a: int, ghost b: int,
                      ghost n: nat)
    returns (w0: MpInt, w1: MpInt, w2: MpInt, w3: MpInt, w4: MpInt)
    requires UsesToom(a, b) && n == ThirdOf(a, b) && PartsAre(a0, a1, a2, a, n) && PartsAre(b0, b1, b2, b, n)
    ensures fresh(w0) && fresh(w1) && fresh(w2) && fresh(w3) && fresh(w4) && w0 != w4 && Five(w0, w1, w2, w3, w4)
    ensures FiveValues(w0, w1, w2, w3, w4, SubProducts(a, b))
    decreases NumDigits(Abs(a)) + NumDigits(Abs(b)), 3
  {
    w0, w4 := OuterProducts(a0, a1, a2, b0, b1, b2, a, b, n);
    w1, w3 := ProductsAtTwo(a0, a1, a2, b0, b1, b2, a, b, n);
    w2 := MiddleProduct(a0, a1, a2, b0, b1, b2, a, b, n);
  }

  lemma ToomApplies(a: MpInt, b: MpInt, n: nat)
    requires a.Valid() && b.Valid() && a.used >= TOOM_MUL_CUTOFF && b.used >= TOOM_MUL_CUTOFF
    requires n == Min(a.used, b.used) / 3
    ensures UsesToom(a.Value(), b.Value()) && n == ThirdOf(a.Value(), b.Value())
    ensures NumDigits(Abs(a.Value())) == a.used && NumDigits(Abs(b.Value())) == b.used
  {
    SizeOf(a);
    SizeOf(b);
  }

  /** mp_toom_mul */
  method ToomMul(a: MpInt, b: MpInt, c: MpInt)
    requires a.Valid() && b.Valid() && c.Valid() && a.used >= TOOM_MUL_CUTOFF && b.used >= TOOM_MUL_CUTOFF
    modifies c
    ensures c.Valid() && c.Value() == Times(old(a.Value()), old(b.Value()))
    ensures old(c.Clean()) ==> c.Clean()
    decreases a.used + b.used, 5
  {
    var n := Min(a.used, b.used) / 3;
    ghost var va, vb := a.Value(), b.Value();
    ToomApplies(a, b, n);
    var w0, w1, w2, w3, w4 := ToomCoefficients(a, b, n, va, vb);
    Recombine(w0, w1, w2, w3, w4, c, n, Interpolated(SubProducts(va, vb)));
    ToomIsTimes(va, vb, c.Value());
  }

  /** From the operands to the coefficients of their product. */
  method ToomCoefficients(a: MpInt, b: MpInt, n: nat, ghost va: int, ghost vb: int)
    returns (w0: MpInt, w1: MpInt, w2: MpInt, w3: MpInt, w4: MpInt)
    requires a.Valid() && b.Valid() && va == a.Value() && vb == b.Value() && UsesToom(va, vb) && n == ThirdOf(va, vb)
    ensures fresh(w0) && fresh(w1) && fresh(w2) && fresh(w3) && fresh(w4) && w0 != w4 && Five(w0, w1, w2, w3, w4)
    ensures FiveValues(w0, w1, w2, w3, w4, Interpolated(SubProducts(va, vb)))
    decreases NumDigits(Abs(va)) + NumDigits(Abs(vb)), 4
  {
    var a0, a1, a2 := Thirds(a, n);
    var b0, b1, b2 := Thirds(b, n);
    w0, w1, w2, w3, w4 := ToomProducts(a0, a1, a2, b0, b1, b2, va, vb, n);
    Interpolate(w0, w1, w2, w3, w4, SubProducts(va, vb));
  }

  // ----- mp_mul

  /** "c->sign = (c->used > 0) ? neg : MP_ZPOS" */
  method SetSign(c: MpInt, neg: bool)
    requires c.Valid()
    modifies c`neg
    ensures c.Valid() && c.Mag() == old(c.Mag()) && c.neg == (neg && c.used > 0)
    ensures (old(c.Value()) < 0 ==> neg) && (old(c.Value()) > 0 ==> !neg) ==> c.Value() == old(c.Value())
  {
    MagBounds(c);
    c.neg := if c.used > 0 then neg else false;
  }

  /** The sizes for which mp_mul takes the comba product, which leaves a word above the result. */
  predicate Comba(na: nat, nb: nat) {
    Min(na, nb) < KARATSUBA_MUL_CUTOFF && na + nb + 1 < MP_WARRAY
  }

  /** The word that mp_mul leaves above its result. */
  function LeftOver(na: nat, nb: nat, word: nat): nat {
    if Comba(na, nb) then word else 0
  }

  /** The two branches of mp_mul for short operands: comba when its columns suffice, else row by row. */
  method ShortMul(a: MpInt, b: MpInt, c: MpInt, word: nat)
    requires a.Valid() && b.Valid() && c.Valid() && Min(a.used, b.used) < KARATSUBA_MUL_CUTOFF
    modifies c
    ensures c.Valid() && c.Mag() == old(a.Mag()) * old(b.Mag())
    ensures Comba(old(a.used), old(b.used)) ==> old(a.used) + old(b.used) < |c.dp|
    ensures old(c.Clean()) ==>
              CleanBut(c, old(a.used) + old(b.used), LeftOver(old(a.used), old(b.used), word))
    ensures LowIs(c, word)
  {
    var digs := a.used + b.used + 1;
    ProductDigits(a.dp, a.used, b.dp, b.used);
    WMono(a.used + b.used, digs);
    DivUnique(a.Mag() * b.Mag(), W(digs), 0, a.Mag() * b.Mag());
    if digs < MP_WARRAY && Min(a.used, b.used) <= MAX_COMBA {
      var overrun := FastMulDigs(a, b, c, digs, word);
    } else {
      var overrun := MulDigs(a, b, c, digs, word);
    }
  }

  /**
   mp_mul; c may be a or b.  Times is the product unless the signs differ and Toom-3 loses a borrow.  A clean c stays
   clean, except for the word that the comba product copies without having written it.
   */
  method Mul(a: MpInt, b: MpInt, c: MpInt, word: nat)
    requires a.Valid() && b.Valid() && c.Valid()
    modifies c
    ensures c.Valid() && c.Value() == Times(old(a.Value()), old(b.Value()))
    ensures Comba(old(a.used), old(b.used)) ==> old(a.used) + old(b.used) < |c.dp|
    ensures old(c.Clean()) ==>
              CleanBut(c, old(a.used) + old(b.used), LeftOver(old(a.used), old(b.used), word))
    ensures LowIs(c, word)
    decreases a.used + b.used, 6
  {
    var neg := a.neg != b.neg;
    ghost var va, vb := a.Value(), b.Value();
    SizeOf(a);
    SizeOf(b);
    MagBounds(a);
    MagBounds(b);
    SignOf(va, vb);
    TimesSign(va, vb);
    if Min(a.used, b.used) >= TOOM_MUL_CUTOFF {
      ToomMul(a, b, c);
    } else {
      MulMagnitudes(a, b, c, word);
      MagBounds(c);
    }
    SetSign(c, neg);
  }

  lemma NonzeroProduct(a: MpInt, b: MpInt)
    requires a.Valid() && b.Valid()
    ensures a.used > 0 && b.used > 0 ==> a.Mag() * b.Mag() > 0
  {
    MagBounds(a);
    MagBounds(b);
    if a.used > 0 && b.used > 0 {
      MulMono(1, a.Mag(), b.Mag());
    }
  }

  /** The branches of mp_mul that multiply magnitudes. */
  method MulMagnitudes(a: MpInt, b: MpInt, c: MpInt, word: nat)
    requires a.Valid() && b.Valid() && c.Valid()
    modifies c
    ensures c.Valid() && c.Mag() == old(a.Mag()) * old(b.Mag())
    ensures Comba(old(a.used), old(b.used)) ==> old(a.used) + old(b.used) < |c.dp|
    ensures old(c.Clean()) ==>
              CleanBut(c, old(a.used) + old(b.used), LeftOver(old(a.used), old(b.used), word))
    ensures LowIs(c, word)
    decreases a.used + b.used, 3
  {
    if Min(a.used, b.used) >= KARATSUBA_MUL_CUTOFF {
      NonzeroProduct(a, b);
      KaratsubaMul(a, b, c);
      MagBounds(c);
    } else {
      ShortMul(a, b, c, word);
    }
  }
}
