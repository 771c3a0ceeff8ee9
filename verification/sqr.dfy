/** mp_sqr and the four ways of squaring behind it. */
module Squaring {
  import opened Arith
  import opened Radix
  import opened MpInts
  import AddSub
  import opened Columns
  import opened Multiply
  import opened DigitCounts
  import opened ToomThree
  import opened Product

  const KARATSUBA_SQR_CUTOFF: nat := 120
  const TOOM_SQR_CUTOFF: nat := 400
  const MAX_SQR_COMBA: nat := 127   // a->used < 1 << (64 - 2 * DIGIT_BIT - 1)

  // ----- comba

  /** Where the source starts in column ix, and how far it goes: half of the column, rounded down. */
  lemma SquareRange(a: seq<nat>, n: nat, ix: nat, ty: int, tx: nat, iy: int)
    requires n <= |a| && ix < 2 * n && n <= MAX_SQR_COMBA
    requires ty == Min(n - 1, ix) && tx == ix - ty && iy == Min(Min(n - tx, ty + 1), (ty - tx + 1) / 2)
    ensures 0 <= iy <= 64 && tx + iy <= n && iy - 1 <= ty < n
    ensures Col(a, n, a, n, ix) ==
            2 * ColSum(a, a, n, ix, tx, tx + iy) + if ix % 2 == 0 then a[ix / 2] * a[ix / 2] else 0
  {
    if ix + 1 < 2 * n {
      SquareColumn(a, n, ix, tx, ty, iy);
    } else {
      ColTrim(a, a, n, ix, 0, n, n, n);
    }
  }

  /** One column of the comba square, on mp_words that do not wrap. */
  method SquareColumnSum(a: seq<nat>, n: nat, ix: nat, carry: nat) returns (w: nat)
    requires n <= |a| && Digits(a, n) && ix < 2 * n && n <= MAX_SQR_COMBA && carry < MAX_CARRY
    ensures w == carry + Col(a, n, a, n, ix) && w < WORD_WRAP
  {
    var ty: int := Min(n - 1, ix);
    var tx: nat := ix - ty;
    var iy: int := Min(n - tx, ty + 1);
    iy := Min(iy, (ty - tx + 1) / 2);
    SquareRange(a, n, ix, ty, tx, iy);
    var half := HalfColumn(a, n, ix, tx, ty, iy);
    w := DoubleHalf(half, carry, ix % 2 == 0, a[ix / 2]);
  }

  /** The inner loop: the products on one side of the middle of the column. */
  method HalfColumn(a: seq<nat>, n: nat, ix: nat, tx: nat, ty: int, iy: nat) returns (half: nat)
    requires n <= |a| && Digits(a, n) && tx + ty == ix && tx + iy <= n && iy - 1 <= ty < n && iy <= 64
    ensures half == ColSum(a, a, n, ix, tx, tx + iy) && half <= 64 * DIGIT_SQUARE
  {
    ghost var sums := Sums(a, a, n, ix, tx, iy, 0);
    SumsGrow(a, a, n, ix, tx, ty, iy, 0, sums);
    half := Accumulate(a, a, tx, ty, iy, 0, sums);
    HalfBound(a, n, ix, tx, iy);
  }

  lemma HalfBound(a: seq<nat>, n: nat, ix: nat, tx: nat, iy: nat)
    requires n <= |a| && Digits(a, n) && tx + iy <= n && iy <= 64
    ensures ColSum(a, a, n, ix, tx, tx + iy) <= 64 * DIGIT_SQUARE
  {
    ColSumBound(a, a, n, ix, tx, tx + iy);
    MulMono(iy, 64, DIGIT_SQUARE);
  }

  /** "double the inner product and add carry", and the square term of even columns. */
  method DoubleHalf(half: nat, carry: nat, even: bool, x: nat) returns (w: nat)
    requires half <= 64 * DIGIT_SQUARE && carry < MAX_CARRY && x < BASE
    ensures w == carry + 2 * half + (if even then x * x else 0) && w < WORD_WRAP
  {
    w := (half + half + carry) % WORD_WRAP;
    if even {
      DigitProduct(x, x);
      w := (w + x * x) % WORD_WRAP;
    }
  }

  /** The body of the column loop. */
  method SquareStep(a: MpInt, ix: nat, w0: seq<nat>, carry0: nat, ghost sum: nat, ghost sum': nat)
    returns (w: seq<nat>, carry: nat)
    requires a.Clamped() && ix < 2 * a.used && a.used <= MAX_SQR_COMBA && ix < |w0| && carry0 < MAX_CARRY
    requires Stored(w0, 0, ix, carry0, sum) && sum' == sum + Col(a.dp, a.used, a.dp, a.used, ix) * W(ix - 0)
    ensures |w| == |w0| && carry < MAX_CARRY && Stored(w, 0, ix + 1, carry, sum')
  {
    var sumW := SquareColumnSum(a.dp, a.used, ix, carry0);
    w := w0[ix := sumW % BASE];
    carry := sumW / BASE;
    StoreColumn(w0, w, 0, ix, carry0, carry, Col(a.dp, a.used, a.dp, a.used, ix), sum, sum');
  }

  /** fast_s_mp_sqr; b may be a. */
  method FastSqr(a: MpInt, b: MpInt)
    requires a.Clamped() && b.used <= |b.dp| && a.used <= MAX_SQR_COMBA
    modifies b
    ensures b.Valid() && b.Mag() == old(a.Mag()) * old(a.Mag())
    ensures old(b.Clean()) ==> b.Clean()
    ensures LowKept(b, old(b.used), old(b.dp))
  {
    var pa := a.used + a.used;
    var w := SquareColumns(a);
    b.Grow(pa);
    StoreColumns(b, w, 0, pa, pa);
  }

  /** The column loop; nothing is carried out of the last column. */
  method SquareColumns(a: MpInt) returns (w: seq<nat>)
    requires a.Clamped() && a.used <= MAX_SQR_COMBA
    ensures |w| == MP_WARRAY && (forall k :: 0 <= k < 2 * a.used ==> w[k] < BASE)
    ensures Val(w, 0, 2 * a.used) == a.Mag() * a.Mag()
  {
    var pa := a.used + a.used;
    w := Uninitialised(MP_WARRAY);
    var carry: nat, ix: nat := 0, 0;
    ghost var sum: nat := 0;
    while ix < pa
      invariant ix <= pa && |w| == MP_WARRAY && carry < MAX_CARRY
      invariant Stored(w, 0, ix, carry, sum) && sum == Cols(a.dp, a.used, a.dp, a.used, 0, ix)
    {
      ghost var sum' := Cols(a.dp, a.used, a.dp, a.used, 0, ix + 1);
      w, carry := SquareStep(a, ix, w, carry, sum, sum');
      sum := sum';
      ix := ix + 1;
    }
    TopColumns(a.dp, a.used, a.dp, a.used, 0, Val(w, 0, pa), carry);
    ColsFull(a.dp, a.used, a.dp, a.used, pa);
    MulZero(W(pa));
  }

  // ----- baseline

  /** The square of what is left, after one digit has met all the others. */
  lemma SquareRow(x: nat, h: nat, w: nat, w1: nat, w2: nat)
    requires w1 == BASE * w && w2 == BASE * w1
    ensures w * ((x + BASE * h) * (x + BASE * h)) == (x * x) * w + (2 * x) * (w1 * h) + w2 * (h * h)
  {
    assert (x + BASE * h) * (x + BASE * h) == x * x + 2 * BASE * (x * h) + BASE * BASE * (h * h);
    Spread(w, x * x, x * h, h * h);
    CrossTerm(x, w, h, w1);
    CornerTerm(w, h * h, w1, w2);
  }

  lemma CrossTerm(x: int, w: int, h: int, w1: int)
    requires w1 == BASE * w
    ensures (2 * x) * (w1 * h) == 2 * BASE * (w * (x * h))
  {
    assert (2 * x) * (w1 * h) == (2 * w1) * (x * h);
    assert (2 * BASE * w) * (x * h) == 2 * BASE * (w * (x * h));
  }

  lemma CornerTerm(w: int, z: int, w1: int, w2: int)
    requires w1 == BASE * w && w2 == BASE * w1
    ensures w2 * z == BASE * BASE * (w * z)
  {
    assert (BASE * BASE * w) * z == BASE * BASE * (w * z);
  }

  lemma Spread(w: int, x: int, y: int, z: int)
    ensures w * (x + 2 * BASE * y + BASE * BASE * z) == x * w + 2 * BASE * (w * y) + BASE * BASE * (w * z)
  {
  }

  /** Twice a digit product, a digit and a carry. */
  lemma DoubleWord(t: nat, x: nat, y: nat, u: nat)
    requires t < BASE && x < BASE && y < BASE && u < 2 * BASE
    ensures 0 <= x * y && t + x * y + x * y + u < 2 * BASE * BASE < WORD_WRAP
    ensures (2 * x) * y == x * y + x * y
  {
    DigitProduct(x, y);
  }

  /** The inner loop of s_mp_sqr: twice x times the digits of a above it. */
  method DoubleRow(t0: seq<nat>, pos: nat, x: nat, a: MpInt, lo: nat, u0: nat) returns (t: seq<nat>, u: nat)
    requires a.Clamped() && lo <= a.used && pos + (a.used - lo) <= |t0| && x < BASE && u0 < BASE && Digits(t0, |t0|)
    ensures |t| == |t0| && Digits(t, |t|) && u < 2 * BASE
    ensures Val(t, 0, |t|) + u * W(pos + (a.used - lo)) == Val(t0, 0, |t|) + u0 * W(pos)
        + (2 * x) * (W(pos) * Val(a.dp, lo, a.used))
  {
    t, u := t0, u0;
    var iy := lo;
    ghost var total: int := Val(t0, 0, |t0|) + u0 * W(pos);
    ghost var gained: int := 0;
    MulZero(2 * x);
    MulZero(W(pos));
    while iy < a.used
      invariant lo <= iy <= a.used && |t| == |t0| && Digits(t, |t|) && u < 2 * BASE
      invariant gained == (2 * x) * (W(pos) * Val(a.dp, lo, iy))
      invariant Val(t, 0, |t|) + u * W(pos + (iy - lo)) == total + gained
    {
      t, u, gained := DoubleProduct(t, pos, x, a, lo, iy, u, gained);
      iy := iy + 1;
    }
  }

  method DoubleProduct(t0: seq<nat>, pos: nat, x: nat, a: MpInt, lo: nat, iy: nat, u0: nat, ghost gained: int)
    returns (t: seq<nat>, u: nat, ghost gained': int)
    requires a.Clamped() && lo <= iy < a.used && pos + (iy - lo) < |t0| && x < BASE && u0 < 2 * BASE && Digits(t0, |t0|)
    requires gained == (2 * x) * (W(pos) * Val(a.dp, lo, iy))
    ensures |t| == |t0| && Digits(t, |t|) && u < 2 * BASE
    ensures gained' == (2 * x) * (W(pos) * Val(a.dp, lo, iy + 1))
    ensures Val(t, 0, |t|) + u * W(pos + (iy + 1 - lo)) - gained' == Val(t0, 0, |t0|) + u0 * W(pos + (iy - lo)) - gained
  {
    var at: nat := pos + (iy - lo);
    DoubleWord(t0[at], x, a.dp[iy], u0);
    var r: nat := x * a.dp[iy];
    r := t0[at] + r + r + u0;
    t := t0[at := r % BASE];
    u := r / BASE;
    ValSet(t0, at, r % BASE, 0, |t0|);
    ValTop(a.dp, lo, iy);
    WAdd(pos, iy - lo);
    RowStep(Val(t0, 0, |t0|), Val(t, 0, |t0|), t0[at], r % BASE, 2 * x, a.dp[iy], u0, u,
            Val(a.dp, lo, iy), W(iy - lo), W(pos), W(at));
    gained' := (2 * x) * (W(pos) * Val(a.dp, lo, iy + 1));
  }

  /** What the digits from ix up still have to contribute, and what t already holds. */
  ghost predicate Squared(t: seq<nat>, d: seq<nat>, ix: nat, n: nat, all: nat)
    requires ix <= n <= |d|
  {
    Digits(t, |t|) && Val(t, 0, |t|) + W(2 * ix) * (Val(d, ix, n) * Val(d, ix, n)) == all
  }

  /** One row of s_mp_sqr, with its carry propagated upwards. */
  method SquareOneRow(t0: seq<nat>, a: MpInt, ix: nat, ghost all: nat) returns (t: seq<nat>)
    requires a.Clamped() && ix < a.used && |t0| == 2 * a.used + 1 && all < W(|t0|)
    requires Squared(t0, a.dp, ix, a.used, all)
    ensures |t| == |t0| && Squared(t, a.dp, ix + 1, a.used, all)
  {
    var x: nat := a.dp[ix];
    ghost var h: nat := Val(a.dp, ix + 1, a.used);
    ghost var v0: nat := Val(t0, 0, |t0|);
    SquareRow(x, h, W(2 * ix), W(2 * ix + 1), W(2 * ix + 2));
    DigitProduct(x, x);
    var r: nat := t0[2 * ix] + x * x;
    var u: nat := r / BASE;
    t := t0[2 * ix := r % BASE];
    ValSet(t0, 2 * ix, r % BASE, 0, |t0|);
    SquareTerm(r % BASE, t0[2 * ix], x * x, u, W(2 * ix));
    t, u := DoubleRow(t, 2 * ix + 1, x, a, ix + 1, u);
    ghost var now: nat := all - W(2 * ix + 2) * (h * h);
    MulMono(0, h, h);
    MulMono(0, W(2 * ix + 2), h * h);
    ghost var lost;
    t, lost := CarryUp(t, ix + a.used, u, |t|, now);
    MulZero(W(ix + a.used));
  }

  lemma SquareTerm(d: int, t: int, xx: int, u: int, p: int)
    requires t + xx == d + BASE * u
    ensures (d - t) * p + u * (BASE * p) == xx * p
  {
    assert (d - t) * p + u * (BASE * p) == (d - t + BASE * u) * p;
  }

  /** s_mp_sqr */
  method BaselineSqr(a: MpInt, b: MpInt)
    requires a.Clamped() && b.used <= |b.dp|
    modifies b
    ensures b.Valid() && b.Mag() == old(a.Mag()) * old(a.Mag())
    ensures old(b.Clean()) ==> b.Clean()
  {
    ghost var m: nat := a.Mag();
    ProductDigits(a.dp, a.used, a.dp, a.used);
    WMono(2 * a.used, 2 * a.used + 1);
    var t := SquareRows(a, m * m);
    MoveDigits(b, t, |t|);
  }

  method SquareRows(a: MpInt, ghost all: nat) returns (t: seq<nat>)
    requires a.Clamped() && all == a.Mag() * a.Mag() && all < W(2 * a.used + 1)
    ensures |t| == 2 * a.used + 1 && Digits(t, |t|) && Val(t, 0, |t|) == all
  {
    t := seq(2 * a.used + 1, _ => 0);
    ValZeros(t, 0, |t|);
    assert W(0) == 1;
    var ix := 0;
    while ix < a.used
      invariant ix <= a.used && |t| == 2 * a.used + 1 && Squared(t, a.dp, ix, a.used, all)
    {
      t := SquareOneRow(t, a, ix, all);
      ix := ix + 1;
    }
  }

  // ----- divide and conquer

  /** mp_sqr into a fresh number. */
  method SqrOf(x: MpInt, ghost bound: nat) returns (w: MpInt)
    requires x.Valid() && x.used < bound
    ensures fresh(w) && w.Valid() && !w.neg && w.Mag() == x.Mag() * x.Mag()
    decreases bound, 0
  {
    w := new MpInt();
    Sqr(x, w);
  }

  /** The three half-size squares. */
  method KaratsubaSquares(x0: MpInt, x1: MpInt, ghost bound: nat) returns (x0x0: MpInt, x1x1: MpInt, t1: MpInt)
    requires x0.Valid() && x1.Valid() && !x0.neg && !x1.neg && x0.used <= x1.used && x1.used + 1 < bound
    ensures fresh(x0x0) && fresh(x1x1) && fresh(t1) && x0x0 != x1x1 && x0x0 != t1 && x1x1 != t1
    ensures x0x0.Valid() && x1x1.Valid() && t1.Valid() && !x0x0.neg && !x1x1.neg && !t1.neg
    ensures x0x0.Mag() == x0.Mag() * x0.Mag() && x1x1.Mag() == x1.Mag() * x1.Mag()
    ensures t1.Mag() == (x1.Mag() + x0.Mag()) * (x1.Mag() + x0.Mag())
    decreases bound, 1
  {
    x0x0 := SqrOf(x0, bound);
    x1x1 := SqrOf(x1, bound);
    var s := new MpInt();
    AddSub.SAdd(x1, x0, s);
    t1 := SqrOf(s, bound);
  }

  /** mp_karatsuba_sqr */
  method KaratsubaSqr(a: MpInt, b: MpInt)
    requires a.Valid() && b.Valid() && a.used >= KARATSUBA_SQR_CUTOFF
    modifies b
    ensures b.Valid() && b.Mag() == old(a.Mag()) * old(a.Mag())
    ensures old(b.Clean()) ==> b.Clean()
    decreases a.used, 2
  {
    var n := a.used / 2;
    ghost var am := a.Mag();
    var x0, x1 := Halves(a, n);
    ghost var m0, m1 := x0.Mag(), x1.Mag();
    var x0x0, x1x1, t1 := KaratsubaSquares(x0, x1, a.used);
    KaratsubaCombine(x0x0, x1x1, t1, b, n, m0, m1, m0, m1, am, am);
    MagBounds(b);
  }

  /** mp_sqr of a sub-value of Toom-3 whose size is known by its value. */
  method SubSquare(x: MpInt, ghost bound: nat) returns (w: MpInt)
    requires x.Valid() && NumDigits(Abs(x.Value())) < bound
    ensures fresh(w) && w.Valid() && w.Value() == x.Value() * x.Value()
    decreases bound, 1
  {
    SizeOf(x);
    MagBounds(x);
    SquareSign(x.Mag());
    w := SqrOf(x, bound);
  }

  lemma SquareSign(m: int)
    ensures (-m) * (-m) == m * m
  {
  }

  function SquareOf(x: int): int {
    x * x
  }

  /** The samples of the square. */
  function SquareSamples(a: int, n: nat): Coefficients {
    Coefficients(SquareOf(Low(a, n)), SquareOf(Eval(Low(a, n), Mid(a, n), High(a, n))),
                 SquareOf(Total(High(a, n), Mid(a, n), Low(a, n))), SquareOf(Eval(High(a, n), Mid(a, n), Low(a, n))),
                 SquareOf(High(a, n)))
  }

  lemma SquareSamplesAre(a: int, n: nat)
    ensures SquareSamples(a, n) == SamplesOf(ProductCoefficients(a, a, n))
  {
    SamplesOfParts(a, a, n);
  }

  /** The five squares. */
  method ToomSquares(a0: MpInt, a1: MpInt, a2: MpInt, ghost a: int, ghost n: nat)
    returns (w0: MpInt, w1: MpInt, w2: MpInt, w3: MpInt, w4: MpInt)
    requires UsesToom(a, a) && n == ThirdOf(a, a) && PartsAre(a0, a1, a2, a, n)
    ensures fresh(w0) && fresh(w1) && fresh(w2) && fresh(w3) && fresh(w4) && w0 != w4 && Five(w0, w1, w2, w3, w4)
    ensures FiveValues(w0, w1, w2, w3, w4, SquareSamples(a, n))
    decreases NumDigits(Abs(a)), 2
  {
    ghost var bound := NumDigits(Abs(a));
    PartSizes(a, n);
    w0 := SubSquare(a0, bound);
    w4 := SubSquare(a2, bound);
    var tmp1 := EvalAtTwo(a0, a1, a2);
    w1 := SubSquare(tmp1, bound);
    tmp1 := EvalAtTwo(a2, a1, a0);
    w3 := SubSquare(tmp1, bound);
    tmp1 := EvalAtOne(a2, a1, a0);
    w2 := SubSquare(tmp1, bound);
  }

  /** mp_toom_sqr: the interpolation of mp_toom_mul; with equal signs no borrow can be lost. */
  method ToomSqr(a: MpInt, b: MpInt)
    requires a.Valid() && b.Valid() && a.used >= TOOM_SQR_CUTOFF
    modifies b
    ensures b.Valid() && b.Value() == old(a.Value()) * old(a.Value())
    ensures old(b.Clean()) ==> b.Clean()
    decreases a.used, 4
  {
    var n := a.used / 3;
    ghost var va := a.Value();
    ToomApplies(a, a, n);
    var w0, w1, w2, w3, w4 := SquareCoefficients(a, n, va);
    Recombine(w0, w1, w2, w3, w4, b, n, ProductCoefficients(va, va, n));
    SquareRecombined(va, n);
  }

  /** From a number to the coefficients of its square. */
  method SquareCoefficients(a: MpInt, n: nat, ghost va: int)
    returns (w0: MpInt, w1: MpInt, w2: MpInt, w3: MpInt, w4: MpInt)
    requires a.Valid() && va == a.Value() && UsesToom(va, va) && n == ThirdOf(va, va)
    ensures fresh(w0) && fresh(w1) && fresh(w2) && fresh(w3) && fresh(w4) && w0 != w4 && Five(w0, w1, w2, w3, w4)
    ensures FiveValues(w0, w1, w2, w3, w4, ProductCoefficients(va, va, n))
    decreases NumDigits(Abs(va)), 3
  {
    var a0, a1, a2 := Thirds(a, n);
    w0, w1, w2, w3, w4 := ToomSquares(a0, a1, a2, va, n);
    Interpolate(w0, w1, w2, w3, w4, SquareSamples(va, n));
    InterpolatedSquare(va, n);
  }

  lemma InterpolatedSquare(a: int, n: nat)
    ensures Interpolated(SquareSamples(a, n)) == ProductCoefficients(a, a, n)
  {
    SquareSamplesAre(a, n);
    InterpolatedSamples(ProductCoefficients(a, a, n));
  }

  lemma SquareRecombined(a: int, n: nat)
    requires UsesToom(a, a) && n == ThirdOf(a, a)
    ensures Recombined(ProductCoefficients(a, a, n), n) == a * a
  {
    LongCoefficients(a, a, n);
    RecombinedValue(ProductCoefficients(a, a, n), n);
    WeightedParts(a, a, n);
  }

  /** The two branches of mp_sqr for short operands. */
  method ShortSqr(a: MpInt, b: MpInt)
    requires a.Valid() && b.Valid()
    modifies b
    ensures b.Valid() && b.Mag() == old(a.Mag()) * old(a.Mag())
    ensures old(b.Clean()) ==> b.Clean()
    ensures LowKept(b, old(b.used), old(b.dp))
  {
    if a.used * 2 + 1 < MP_WARRAY && a.used < MAX_SQR_COMBA + 1 {
      FastSqr(a, b);
    } else {
      NonzeroSquare(a);
      BaselineSqr(a, b);
    }
  }

  lemma NonzeroSquare(a: MpInt)
    requires a.Valid()
    ensures a.used > 0 ==> a.Mag() * a.Mag() > 0
  {
    MagBounds(a);
    if a.used > 0 {
      MulMono(1, a.Mag(), a.Mag());
    }
  }

  /** mp_sqr; b may be a. */
  method Sqr(a: MpInt, b: MpInt)
    requires a.Valid() && b.Valid()
    modifies b
    ensures b.Valid() && !b.neg && b.Mag() == old(a.Mag()) * old(a.Mag())
    ensures old(b.Clean()) ==> b.Clean()
    ensures LowKept(b, old(b.used), old(b.dp))
    decreases a.used, 5
  {
    ghost var m: nat := a.Mag();
    SquareSign(m);
    MulMono(0, m, m);
    NonzeroSquare(a);
    if a.used >= TOOM_SQR_CUTOFF {
      ToomSqr(a, b);
    } else if a.used >= KARATSUBA_SQR_CUTOFF {
      KaratsubaSqr(a, b);
    } else {
      ShortSqr(a, b);
    }
    MagBounds(b);
    b.neg := false;
  }
}
