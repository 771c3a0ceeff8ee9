/**
 What Toom-3 computes, as a function of the operands' values.

 mp_lshd of zero leaves a digit count with nothing but zeros in it, and mp_add compares digit counts before digits.
 Toom-3 shifts its coefficients before it adds them, so a product of opposite signs whose coefficient of weight one is
 zero can pick the wrong minuend; `Lost` says exactly when.  The products that Toom-3 asks for may suffer the same, so
 `Times` follows the recursion all the way down.
 */
module ToomThree {
  import opened Arith
  import opened Radix
  import opened DigitCounts

  const KARATSUBA_MUL_CUTOFF: nat := 80
  const TOOM_MUL_CUTOFF: nat := 350

  // ----- when the product is exact

  predicate Opposite(a: int, b: int) {
    (a < 0 && b > 0) || (a > 0 && b < 0)
  }

  /** How far Toom-3 shifts: a third of the shorter operand's digits. */
  function ThirdOf(a: int, b: int): nat {
    var na, nb := NumDigits(Abs(a)), NumDigits(Abs(b));
    (if na > nb then nb else na) / 3
  }

  predicate UsesToom(a: int, b: int) {
    NumDigits(Abs(a)) >= TOOM_MUL_CUTOFF && NumDigits(Abs(b)) >= TOOM_MUL_CUTOFF
  }

  /** The value at 2 of the polynomial with coefficients z, y, x. */
  function Eval(x: int, y: int, z: int): int {
    z + 2 * (y + 2 * x)
  }

  /** The value at 1. */
  function Total(x: int, y: int, z: int): int {
    x + y + z
  }

  lemma EvalSize(x: int, y: int, z: int, n: nat)
    requires NumDigits(Abs(x)) <= n && NumDigits(Abs(y)) <= n && NumDigits(Abs(z)) <= n
    ensures NumDigits(Abs(Eval(x, y, z))) <= n + 1 && NumDigits(Abs(Total(x, y, z))) <= n + 1
  {
    NumDigitsBelow(Abs(x), n);
    NumDigitsBelow(Abs(y), n);
    NumDigitsBelow(Abs(z), n);
    NumDigitsBelow(Abs(Eval(x, y, z)), n + 1);
    NumDigitsBelow(Abs(Total(x, y, z)), n + 1);
  }

  /** The parts that Toom-3 multiplies are shorter than the number they come from. */
  lemma PartSizes(a: int, n: nat)
    requires 1 < n && 3 * n <= NumDigits(Abs(a))
    ensures NumDigits(Abs(Low(a, n))) < NumDigits(Abs(a)) && NumDigits(Abs(High(a, n))) < NumDigits(Abs(a))
    ensures NumDigits(Abs(Eval(Low(a, n), Mid(a, n), High(a, n)))) < NumDigits(Abs(a))
    ensures NumDigits(Abs(Eval(High(a, n), Mid(a, n), Low(a, n)))) < NumDigits(Abs(a))
    ensures NumDigits(Abs(Total(High(a, n), Mid(a, n), Low(a, n)))) < NumDigits(Abs(a))
  {
    ThirdSizes(a, n);
    var m: nat := NumDigits(Abs(a)) - 2 * n;
    EvalSize(Low(a, n), Mid(a, n), High(a, n), m);
    EvalSize(High(a, n), Mid(a, n), Low(a, n), m);
  }

  /** The borrow that gets lost when |w0| has fewer digits than the shift and the next coefficient is zero. */
  predicate Lost(a: int, b: int) {
    var n := ThirdOf(a, b);
    && Opposite(a, b) && UsesToom(a, b) && n > 0
    && Mid(a, n) == 0 && Mid(b, n) == 0 && Low(a, n) != 0 && Low(b, n) != 0
    && Abs(Low(a, n)) * Abs(Low(b, n)) < W(n - 1)
  }

  /** The five products that Toom-3 asks mp_mul for are exact. */
  predicate SubExact(a: int, b: int)
    requires UsesToom(a, b)
    decreases NumDigits(Abs(a)) + NumDigits(Abs(b)), 0
  {
    var n := ThirdOf(a, b);
    PartSizes(a, n);
    PartSizes(b, n);
    && Exact(Low(a, n), Low(b, n))
    && Exact(High(a, n), High(b, n))
    && Exact(Eval(Low(a, n), Mid(a, n), High(a, n)), Eval(Low(b, n), Mid(b, n), High(b, n)))
    && Exact(Eval(High(a, n), Mid(a, n), Low(a, n)), Eval(High(b, n), Mid(b, n), Low(b, n)))
    && Exact(Total(High(a, n), Mid(a, n), Low(a, n)), Total(High(b, n), Mid(b, n), Low(b, n)))
  }

  predicate Exact(a: int, b: int)
    decreases NumDigits(Abs(a)) + NumDigits(Abs(b)), 1
  {
    Opposite(a, b) && UsesToom(a, b) ==> !Lost(a, b) && SubExact(a, b)
  }

  /** What mp_mul gives when the products it asks for are exact. */
  function Computed(a: int, b: int): int {
    a * b + if Lost(a, b) then W(ThirdOf(a, b)) else 0
  }

  /** Operands that do not have opposite signs cannot lose a borrow, at any depth. */
  lemma SameSigns(a: int, b: int)
    requires UsesToom(a, b) && !Opposite(a, b)
    ensures SubExact(a, b)
  {
    var n := ThirdOf(a, b);
    ThirdSigns(a, n);
    ThirdSigns(b, n);
  }

  /** Below 1041 digits no sub-product can reach Toom-3 again, so the guard alone decides. */
  lemma OneLevel(a: int, b: int)
    requires UsesToom(a, b) && ThirdOf(a, b) <= 346
    ensures SubExact(a, b) && (Exact(a, b) <==> !Lost(a, b))
  {
    var n := ThirdOf(a, b);
    if NumDigits(Abs(a)) <= NumDigits(Abs(b)) {
      ShortParts(a, n);
    } else {
      ShortParts(b, n);
    }
  }

  lemma ShortParts(a: int, n: nat)
    requires 1 < n <= 346 && 3 * n <= NumDigits(Abs(a)) <= 3 * n + 2
    ensures NumDigits(Abs(Low(a, n))) < TOOM_MUL_CUTOFF && NumDigits(Abs(High(a, n))) < TOOM_MUL_CUTOFF
    ensures NumDigits(Abs(Eval(Low(a, n), Mid(a, n), High(a, n)))) < TOOM_MUL_CUTOFF
    ensures NumDigits(Abs(Eval(High(a, n), Mid(a, n), Low(a, n)))) < TOOM_MUL_CUTOFF
    ensures NumDigits(Abs(Total(High(a, n), Mid(a, n), Low(a, n)))) < TOOM_MUL_CUTOFF
  {
    ThirdSizes(a, n);
    EvalSize(Low(a, n), Mid(a, n), High(a, n), n + 2);
    EvalSize(High(a, n), Mid(a, n), Low(a, n), n + 2);
  }

  /**
   Concrete pairs that lose the borrow: W(d) + 1 times its negation, for example with d = 349.  mp_mul then gives the
   product plus W((d + 1) / 3).
   */
  lemma LosesBorrow(d: nat, a: nat, b: int)
    requires TOOM_MUL_CUTOFF - 1 <= d <= 1037 && a == W(d) + 1 && b == -(a as int)
    ensures Lost(a, b) && SubExact(a, b) && !Exact(a, b) && ThirdOf(a, b) == (d + 1) / 3
    ensures Lost(b, a) && SubExact(b, a) && !Exact(b, a) && ThirdOf(b, a) == (d + 1) / 3
  {
    SparseDigits(a, d);
    SparseThirds(a, d, (d + 1) / 3);
    NegatedSize(a, b, d);
    NegatedLoses(a, b, (d + 1) / 3);
    OneLevel(a, b);
    OneLevel(b, a);
  }

  lemma NegatedSize(a: nat, b: int, d: nat)
    requires 0 < a == -b && NumDigits(a) == d + 1
    ensures UsesToom(a, b) == UsesToom(b, a) == (d + 1 >= TOOM_MUL_CUTOFF)
    ensures ThirdOf(a, b) == ThirdOf(b, a) == (d + 1) / 3
  {
  }

  lemma NegatedLoses(a: nat, b: int, n: nat)
    requires 0 < a == -b && LowDigits(a, n) == 1 && MidDigits(a, n) == 0
    requires n > 1 && W(n - 1) > 1 && UsesToom(a, b) && UsesToom(b, a) && n == ThirdOf(a, b) == ThirdOf(b, a)
    ensures Lost(a, b) && Lost(b, a)
  {
    NegatedThirds(a, n);
  }

  lemma NegatedThirds(a: nat, n: nat)
    requires a > 0 && LowDigits(a, n) == 1 && MidDigits(a, n) == 0
    ensures Low(a, n) == 1 && Low(-(a as int), n) == -1 && Mid(a, n) == 0 && Mid(-(a as int), n) == 0
    ensures Abs(a) == a && Abs(-(a as int)) == a
  {
  }

  lemma SparseDigits(a: nat, d: nat)
    requires d > 0 && a == W(d) + 1
    ensures NumDigits(a) == d + 1
  {
    BaseOrMore(d);
    NumDigitsBelow(a, d + 1);
    NumDigitsBelow(a, d);
  }

  lemma BaseOrMore(n: nat)
    requires n > 0
    ensures W(n) >= BASE
  {
    assert W(n) == BASE * W(n - 1);
  }

  lemma SparseThirds(a: nat, d: nat, n: nat)
    requires 1 < n && a == W(d) + 1 && 2 * n <= d
    ensures LowDigits(a, n) == 1 && MidDigits(a, n) == 0 && W(n - 1) > 1
  {
    WAdd(n, d - n);
    WAdd(n, d - n - n);
    BaseOrMore(n);
    BaseOrMore(n - 1);
    SparseParts(a, W(n), W(d - n), W(d - n - n));
  }

  lemma SparseParts(a: nat, w: nat, q: nat, p: nat)
    requires a == w * q + 1 && q == w * p && w > 1
    ensures a % w == 1 && a / w == q && q % w == 0
  {
    DivUnique(a, w, q, 1);
    DivUnique(q, w, p, 0);
  }

  // ----- the algebra of Toom-3

  datatype Coefficients = Coefficients(c0: int, c1: int, c2: int, c3: int, c4: int)

  /** The product of two polynomials of degree two. */
  function Convolve(a0: int, a1: int, a2: int, b0: int, b1: int, b2: int): Coefficients {
    Coefficients(a0 * b0, a0 * b1 + a1 * b0, a0 * b2 + a1 * b1 + a2 * b0, a1 * b2 + a2 * b1, a2 * b2)
  }

  lemma Samples(a0: int, a1: int, a2: int, b0: int, b1: int, b2: int)
    ensures var p := Convolve(a0, a1, a2, b0, b1, b2);
            && Eval(a0, a1, a2) * Eval(b0, b1, b2) == 16 * p.c0 + 8 * p.c1 + 4 * p.c2 + 2 * p.c3 + p.c4
            && Eval(a2, a1, a0) * Eval(b2, b1, b0) == p.c0 + 2 * p.c1 + 4 * p.c2 + 8 * p.c3 + 16 * p.c4
            && Total(a2, a1, a0) * Total(b2, b1, b0) == p.c0 + p.c1 + p.c2 + p.c3 + p.c4
  {
    Expand(a0, a1, a2, b0, b1, b2, 4, 2, 1);
    Expand(a2, a1, a0, b2, b1, b0, 4, 2, 1);
    Expand(a2, a1, a0, b2, b1, b0, 1, 1, 1);
  }

  lemma Expand(x: int, y: int, z: int, u: int, v: int, w: int, p: int, q: int, r: int)
    ensures (x * p + y * q + z * r) * (u * p + v * q + w * r) ==
            (x * u) * (p * p) + (x * v + y * u) * (p * q) + (x * w + z * u) * (p * r) + (y * v) * (q * q)
            + (y * w + z * v) * (q * r) + (z * w) * (r * r)
  {
    Grid(x * p, y * q, z * r, u * p, v * q, w * r);
    Scale(x, p, u, p, p * p);
    Pair(x, p, v, q, y, u, p * q);
    Pair(x, p, w, r, z, u, p * r);
    Scale(y, q, v, q, q * q);
    Pair(y, q, w, r, z, v, q * r);
    Scale(z, r, w, r, r * r);
  }

  lemma Grid(x: int, y: int, z: int, u: int, v: int, w: int)
    ensures (x + y + z) * (u + v + w) == x * u + x * v + x * w + y * u + y * v + y * w + z * u + z * v + z * w
  {
  }

  lemma Scale(x: int, p: int, y: int, q: int, pq: int)
    requires pq == p * q
    ensures (x * p) * (y * q) == (x * y) * pq
  {
    assert (x * p) * (y * q) == (x * y) * (p * q);
  }

  lemma Pair(x: int, p: int, y: int, q: int, z: int, u: int, pq: int)
    requires pq == p * q
    ensures (x * p) * (y * q) + (z * q) * (u * p) == (x * y + z * u) * pq
  {
    Scale(x, p, y, q, pq);
    Scale(z, q, u, p, pq);
  }

  /** The coefficients, weighted, are the product. */
  lemma Weighted(a0: int, a1: int, a2: int, b0: int, b1: int, b2: int, n: nat, a: int, b: int)
    requires a == a0 + a1 * W(n) + a2 * W(2 * n) && b == b0 + b1 * W(n) + b2 * W(2 * n)
    ensures var p := Convolve(a0, a1, a2, b0, b1, b2);
            a * b == p.c0 + p.c1 * W(n) + p.c2 * W(2 * n) + p.c3 * W(3 * n) + p.c4 * W(4 * n)
  {
    WAdd(n, n);
    WAdd(n, 2 * n);
    WAdd(n, 3 * n);
    WeightedProduct(a0, a1, a2, b0, b1, b2, W(n), W(2 * n), W(3 * n), W(4 * n), a, b);
  }

  lemma WeightedProduct(a0: int, a1: int, a2: int, b0: int, b1: int, b2: int, w: int, w2: int, w3: int, w4: int,
                        a: int, b: int)
    requires w2 == w * w && w3 == w * w2 && w4 == w * w3
    requires a == a0 + a1 * w + a2 * w2 && b == b0 + b1 * w + b2 * w2
    ensures a * b == a0 * b0 + (a0 * b1 + a1 * b0) * w + (a0 * b2 + a1 * b1 + a2 * b0) * w2
                     + (a1 * b2 + a2 * b1) * w3 + (a2 * b2) * w4
  {
    Expand(a0, a1, a2, b0, b1, b2, 1, w, w2);
    assert w2 * w2 == w4;
    Distribute(a0 * b2 + a2 * b0, a1 * b1, w2);
  }

  // ----- interpolation and recombination

  /** The samples of a polynomial at 0, 1/2, 1, 2 and infinity. */
  function SamplesOf(p: Coefficients): Coefficients {
    Coefficients(p.c0, 16 * p.c0 + 8 * p.c1 + 4 * p.c2 + 2 * p.c3 + p.c4, p.c0 + p.c1 + p.c2 + p.c3 + p.c4,
                 p.c0 + 2 * p.c1 + 4 * p.c2 + 8 * p.c3 + 16 * p.c4, p.c4)
  }

  /** The middle of an interpolation: three times c1, c2, and three times c3. */
  datatype Middle = Middle(x1: int, c2: int, x3: int)

  function MiddleOf(r: Coefficients, h1: int, h3: int): Middle {
    var r2 := r.c2 - r.c0 - r.c4;
    var r1 := h1 - r2 - 8 * r.c0;
    var r3 := h3 - r2 - 8 * r.c4;
    var c2 := 3 * r2 - r1 - r3;
    Middle(r1 - c2, c2, r3 - c2)
  }

  /** mp_div_2 and mp_div_3 round towards zero. */
  function Half(x: int): int {
    if x < 0 then -(-x / 2) else x / 2
  }

  function Third(x: int): int {
    if x < 0 then -(-x / 3) else x / 3
  }

  /** The two divisions by three. */
  function Ends(m: Middle, c0: int, c4: int): Coefficients {
    Coefficients(c0, Third(m.x1), m.c2, Third(m.x3), c4)
  }

  /** What the interpolation makes of five numbers, whether they are samples of a polynomial or not. */
  function Interpolated(r: Coefficients): Coefficients {
    Ends(MiddleOf(r, Half(r.c1 - r.c4), Half(r.c3 - r.c0)), r.c0, r.c4)
  }

  lemma HalfIs(x: int, h: int)
    requires x == 2 * h
    ensures Half(x) == h
  {
  }

  lemma ThirdIs(x: int, t: int)
    requires x == 3 * t
    ensures Third(x) == t
  {
  }

  lemma MiddleOfSamples(p: Coefficients, h1: int, h3: int)
    requires h1 == 8 * p.c0 + 4 * p.c1 + 2 * p.c2 + p.c3 && h3 == p.c1 + 2 * p.c2 + 4 * p.c3 + 8 * p.c4
    ensures MiddleOf(SamplesOf(p), h1, h3) == Middle(3 * p.c1, p.c2, 3 * p.c3)
  {
  }

  /** The samples of a polynomial give back its coefficients; every division is exact. */
  lemma InterpolatedSamples(p: Coefficients)
    ensures Interpolated(SamplesOf(p)) == p
  {
    var r := SamplesOf(p);
    var h1, h3 := 8 * p.c0 + 4 * p.c1 + 2 * p.c2 + p.c3, p.c1 + 2 * p.c2 + 4 * p.c3 + 8 * p.c4;
    HalfIs(r.c1 - r.c4, h1);
    HalfIs(r.c3 - r.c0, h3);
    MiddleOfSamples(p, h1, h3);
    ThirdIs(3 * p.c1, p.c1);
    ThirdIs(3 * p.c3, p.c3);
  }

  function Size(x: int): nat {
    NumDigits(Abs(x))
  }

  /** What mp_add is off by when one operand is a zero with too many digits in use and the other is negative. */
  function Slip(ux: nat, vx: int, uy: nat, vy: int): nat {
    if vx < 0 && vy == 0 && ux < uy then W(uy) else if vy < 0 && vx == 0 && uy < ux then W(ux) else 0
  }

  /** The coefficients, shifted to their places and added in the source's order. */
  function Recombined(p: Coefficients, n: nat): int {
    var v1, v2, v3, v4 := p.c1 * W(n), p.c2 * W(2 * n), p.c3 * W(3 * n), p.c4 * W(4 * n);
    var low := p.c0 + v1 + Slip(Size(p.c0), p.c0, Size(p.c1) + n, v1);
    var high := v2 + v3 + Slip(Size(p.c2) + 2 * n, v2, Size(p.c3) + 3 * n, v3);
    low + (v4 + high + Slip(Size(p.c4) + 4 * n, v4, Size(high), high))
  }

  /** The value of a polynomial at W(n). */
  function AtWeight(p: Coefficients, n: nat): int {
    p.c0 + p.c1 * W(n) + p.c2 * W(2 * n) + p.c3 * W(3 * n) + p.c4 * W(4 * n)
  }

  /** What the coefficients of two numbers of more than 3n digits look like. */
  ghost predicate Consistent(p: Coefficients, n: nat) {
    && ((p.c0 >= 0 && p.c1 >= 0 && p.c2 >= 0 && p.c3 >= 0 && p.c4 > 0)
        || (p.c0 <= 0 && p.c1 <= 0 && p.c2 <= 0 && p.c3 <= 0 && p.c4 < 0))
    && (p.c3 == 0 && p.c2 != 0 ==> n > 0 && Abs(p.c2) >= W(n - 1))
  }

  lemma SignKept(x: int, w: int, y: int)
    requires w > 0 && y == x * w
    ensures x > 0 <==> y > 0
    ensures x < 0 <==> y < 0
  {
    if x > 0 {
      MulMono(1, x, w);
    } else if x < 0 {
      MulMono(x, -1, w);
    }
  }

  /** Slips of the two additions, in terms of the coefficients. */
  lemma Slips(p: Coefficients, n: nat, u0: nat, u1: nat, v1: int, u2: nat, v2: int, u3: nat, v3: int)
    requires Consistent(p, n) && n > 0
    requires v1 == p.c1 * W(n) && v2 == p.c2 * W(2 * n) && v3 == p.c3 * W(3 * n)
    requires (u0 < n <==> Abs(p.c0) < W(n - 1)) && (p.c1 == 0 <==> u1 == n) && u1 >= n
    requires (p.c2 == 0 <==> u2 == 2 * n) && (p.c3 == 0 <==> u3 == 3 * n) && u3 >= 3 * n
    requires u2 - 2 * n < n <==> Abs(p.c2) < W(n - 1)
    ensures !Opposite(p.c0, v1) && !Opposite(v2, v3)
    ensures Slip(u0, p.c0, u1, v1) == if p.c0 < 0 && p.c1 == 0 && Abs(p.c0) < W(n - 1) then W(n) else 0
    ensures Slip(u2, v2, u3, v3) == 0
  {
    SignKept(p.c1, W(n), v1);
    SignKept(p.c2, W(2 * n), v2);
    SignKept(p.c3, W(3 * n), v3);
  }

  lemma DigitsOfZero(x: int)
    ensures Size(x) == 0 <==> x == 0
  {
  }

  /** Consistent coefficients are recombined exactly, unless the first addition loses its borrow. */
  lemma RecombinedValue(p: Coefficients, n: nat)
    requires Consistent(p, n) && n > 0
    ensures Recombined(p, n) ==
            AtWeight(p, n) + if p.c0 < 0 && p.c1 == 0 && Abs(p.c0) < W(n - 1) then W(n) else 0
  {
    NumDigitsBelow(Abs(p.c0), n - 1);
    NumDigitsBelow(Abs(p.c2), n - 1);
    DigitsOfZero(p.c1);
    DigitsOfZero(p.c2);
    DigitsOfZero(p.c3);
    SignKept(p.c4, W(4 * n), p.c4 * W(4 * n));
    DigitsOfZero(0);
    Slips(p, n, Size(p.c0), Size(p.c1) + n, p.c1 * W(n), Size(p.c2) + 2 * n, p.c2 * W(2 * n),
          Size(p.c3) + 3 * n, p.c3 * W(3 * n));
  }

  /** Coefficients of magnitudes: the top one is not zero, and a zero says which parts are zero. */
  lemma MagnitudeCoefficients(x0: nat, x1: nat, x2: nat, y0: nat, y1: nat, y2: nat, least: nat, p: Coefficients)
    requires p == Convolve(x0, x1, x2, y0, y1, y2) && x2 >= least > 0 && y2 >= least
    ensures p.c0 >= 0 && p.c1 >= 0 && p.c2 >= 0 && p.c3 >= 0 && p.c4 > 0
    ensures p.c3 == 0 && p.c2 != 0 ==> p.c2 >= least
    ensures p.c0 > 0 && p.c1 == 0 <==> x0 > 0 && y0 > 0 && x1 == 0 && y1 == 0
  {
    Nonzero(x0, y0);
    Nonzero(x0, y1);
    Nonzero(x1, y0);
    Nonzero(x0, y2);
    Nonzero(x1, y1);
    Nonzero(x2, y0);
    Nonzero(x1, y2);
    Nonzero(x2, y1);
    Nonzero(x2, y2);
  }

  lemma Nonzero(x: nat, y: nat)
    ensures x * y >= 0 && (x * y == 0 <==> x == 0 || y == 0) && (x > 0 ==> x * y >= y) && (y > 0 ==> x * y >= x)
  {
    if x > 0 {
      MulMono(1, x, y);
    }
    if y > 0 {
      MulMono(1, y, x);
    }
  }

  lemma SignedTerms(sa: bool, x: nat, sb: bool, y: nat)
    ensures Signed(sa, x) * Signed(sb, y) == if sa == sb then x * y else -(x * y)
  {
    SignedTerm(x, y);
  }

  lemma SignedConvolve(sa: bool, x0: nat, x1: nat, x2: nat, sb: bool, y0: nat, y1: nat, y2: nat, p: Coefficients,
                       q: Coefficients)
    requires p == Convolve(x0, x1, x2, y0, y1, y2)
    requires q == Convolve(Signed(sa, x0), Signed(sa, x1), Signed(sa, x2), Signed(sb, y0), Signed(sb, y1),
        Signed(sb, y2))
    ensures q == if sa == sb then p else Coefficients(-p.c0, -p.c1, -p.c2, -p.c3, -p.c4)
  {
    SignedTerms(sa, x0, sb, y0);
    SignedTerms(sa, x0, sb, y1);
    SignedTerms(sa, x1, sb, y0);
    SignedTerms(sa, x0, sb, y2);
    SignedTerms(sa, x1, sb, y1);
    SignedTerms(sa, x2, sb, y0);
    SignedTerms(sa, x1, sb, y2);
    SignedTerms(sa, x2, sb, y1);
    SignedTerms(sa, x2, sb, y2);
  }

  function ProductCoefficients(a: int, b: int, n: nat): Coefficients {
    Convolve(Low(a, n), Mid(a, n), High(a, n), Low(b, n), Mid(b, n), High(b, n))
  }

  /** The coefficients of two long numbers are fit for recombination, and tell whether the borrow is lost. */
  lemma LongCoefficients(a: int, b: int, n: nat)
    requires UsesToom(a, b) && n == ThirdOf(a, b)
    ensures var p := ProductCoefficients(a, b, n);
            && Consistent(p, n)
            && (p.c0 < 0 && p.c1 == 0 && Abs(p.c0) < W(n - 1) <==> Lost(a, b))
  {
    ThirdSizes(a, n);
    ThirdSizes(b, n);
    NumDigitsBelow(Abs(a), 0);
    NumDigitsBelow(Abs(b), 0);
    JudgeCoefficients(a < 0, LowDigits(Abs(a), n), MidDigits(Abs(a), n), HighDigits(Abs(a), n),
                      b < 0, LowDigits(Abs(b), n), MidDigits(Abs(b), n), HighDigits(Abs(b), n), n,
                        ProductCoefficients(a, b, n));
  }

  lemma JudgeCoefficients(sa: bool, x0: nat, x1: nat, x2: nat, sb: bool, y0: nat, y1: nat, y2: nat, n: nat,
                          q: Coefficients)
    requires q == Convolve(Signed(sa, x0), Signed(sa, x1), Signed(sa, x2), Signed(sb, y0), Signed(sb, y1),
        Signed(sb, y2))
    requires n > 0 && x2 >= W(n - 1) && y2 >= W(n - 1)
    ensures Consistent(q, n)
    ensures q.c0 < 0 && q.c1 == 0 && Abs(q.c0) < W(n - 1) <==>
            sa != sb && x1 == 0 && y1 == 0 && x0 != 0 && y0 != 0 && x0 * y0 < W(n - 1)
  {
    var p := Convolve(x0, x1, x2, y0, y1, y2);
    MagnitudeCoefficients(x0, x1, x2, y0, y1, y2, W(n - 1), p);
    SignedConvolve(sa, x0, x1, x2, sb, y0, y1, y2, p, q);
  }

  lemma WeightedParts(a: int, b: int, n: nat)
    ensures var p := ProductCoefficients(a, b, n);
            a * b == p.c0 + p.c1 * W(n) + p.c2 * W(2 * n) + p.c3 * W(3 * n) + p.c4 * W(4 * n)
  {
    ThirdsMakeUp(a, n);
    ThirdsMakeUp(b, n);
    Weighted(Low(a, n), Mid(a, n), High(a, n), Low(b, n), Mid(b, n), High(b, n), n, a, b);
  }

  /** What the parts of a number evaluate to at 0, 1/2, 1, 2 and infinity. */
  function Evaluations(a: int, n: nat): Coefficients {
    Coefficients(Low(a, n), Eval(Low(a, n), Mid(a, n), High(a, n)), Total(High(a, n), Mid(a, n), Low(a, n)),
                 Eval(High(a, n), Mid(a, n), Low(a, n)), High(a, n))
  }

  function ProductsOf(x: Coefficients, y: Coefficients): Coefficients {
    Coefficients(x.c0 * y.c0, x.c1 * y.c1, x.c2 * y.c2, x.c3 * y.c3, x.c4 * y.c4)
  }

  lemma SamplesOfParts(a: int, b: int, n: nat)
    ensures SamplesOf(ProductCoefficients(a, b, n)) == ProductsOf(Evaluations(a, n), Evaluations(b, n))
  {
    Samples(Low(a, n), Mid(a, n), High(a, n), Low(b, n), Mid(b, n), High(b, n));
  }

  // ----- what mp_mul computes

  /** The five products that mp_toom_mul asks mp_mul for. */
  function SubProducts(a: int, b: int): Coefficients
    requires UsesToom(a, b)
    decreases NumDigits(Abs(a)) + NumDigits(Abs(b)), 0
  {
    var n := ThirdOf(a, b);
    PartSizes(a, n);
    PartSizes(b, n);
    Coefficients(Times(Low(a, n), Low(b, n)),
                 Times(Eval(Low(a, n), Mid(a, n), High(a, n)), Eval(Low(b, n), Mid(b, n), High(b, n))),
                 Times(Total(High(a, n), Mid(a, n), Low(a, n)), Total(High(b, n), Mid(b, n), Low(b, n))),
                 Times(Eval(High(a, n), Mid(a, n), Low(a, n)), Eval(High(b, n), Mid(b, n), Low(b, n))),
                 Times(High(a, n), High(b, n)))
  }

  /** The value mp_mul gives for a and b. */
  function Times(a: int, b: int): int
    decreases NumDigits(Abs(a)) + NumDigits(Abs(b)), 1
  {
    if Opposite(a, b) && UsesToom(a, b) then Recombined(Interpolated(SubProducts(a, b)), ThirdOf(a, b)) else a * b
  }

  /** The five products are those of the evaluations. */
  function TimesOf(x: Coefficients, y: Coefficients): Coefficients {
    Coefficients(Times(x.c0, y.c0), Times(x.c1, y.c1), Times(x.c2, y.c2), Times(x.c3, y.c3), Times(x.c4, y.c4))
  }

  lemma SubProductsOf(a: int, b: int)
    requires UsesToom(a, b)
    ensures SubProducts(a, b) == TimesOf(Evaluations(a, ThirdOf(a, b)), Evaluations(b, ThirdOf(a, b)))
  {
  }

  /** How far off mp_mul is. */
  function Miss(x: int, y: int): nat {
    Abs(Times(x, y) - x * y)
  }

  /** When the five products are exact, Toom-3 is off by at most the lost borrow. */
  lemma ToomValue(a: int, b: int)
    requires UsesToom(a, b) && SubProducts(a, b) == SamplesOf(ProductCoefficients(a, b, ThirdOf(a, b)))
    ensures Recombined(Interpolated(SubProducts(a, b)), ThirdOf(a, b)) == Computed(a, b)
  {
    var n := ThirdOf(a, b);
    InterpolatedSamples(ProductCoefficients(a, b, n));
    LongCoefficients(a, b, n);
    RecombinedValue(ProductCoefficients(a, b, n), n);
    WeightedParts(a, b, n);
  }

  /** Without opposite signs Toom-3 is exact. */
  lemma SameSignValue(a: int, b: int)
    requires UsesToom(a, b) && !Opposite(a, b)
    ensures Recombined(Interpolated(SubProducts(a, b)), ThirdOf(a, b)) == a * b
  {
    SameSigns(a, b);
    SubExactTimes(a, b);
    ToomValue(a, b);
  }

  /** What mp_toom_mul computes is what mp_mul computes. */
  lemma ToomIsTimes(a: int, b: int, v: int)
    requires UsesToom(a, b) && v == Recombined(Interpolated(SubProducts(a, b)), ThirdOf(a, b))
    ensures v == Times(a, b)
  {
    if !Opposite(a, b) {
      SameSignValue(a, b);
    }
  }

  /** Exact operands have an exact product. */
  lemma {:induction false} ExactTimes(a: int, b: int)
    requires Exact(a, b)
    ensures Times(a, b) == a * b
    decreases NumDigits(Abs(a)) + NumDigits(Abs(b)), 1
  {
    if Opposite(a, b) && UsesToom(a, b) {
      SubExactTimes(a, b);
      ToomValue(a, b);
    }
  }

  lemma {:induction false} SubExactTimes(a: int, b: int)
    requires UsesToom(a, b) && SubExact(a, b)
    ensures SubProducts(a, b) == SamplesOf(ProductCoefficients(a, b, ThirdOf(a, b)))
    decreases NumDigits(Abs(a)) + NumDigits(Abs(b)), 0
  {
    var n := ThirdOf(a, b);
    PartSizes(a, n);
    PartSizes(b, n);
    SamplesOfParts(a, b, n);
    ExactTimes(Low(a, n), Low(b, n));
    ExactTimes(High(a, n), High(b, n));
    ExactTimes(Eval(Low(a, n), Mid(a, n), High(a, n)), Eval(Low(b, n), Mid(b, n), High(b, n)));
    ExactTimes(Eval(High(a, n), Mid(a, n), Low(a, n)), Eval(High(b, n), Mid(b, n), Low(b, n)));
    ExactTimes(Total(High(a, n), Mid(a, n), Low(a, n)), Total(High(b, n), Mid(b, n), Low(b, n)));
  }

  /** When the products it asks for are exact, mp_mul is exact if and only if no borrow is lost. */
  lemma TimesComputed(a: int, b: int)
    requires UsesToom(a, b) ==> SubExact(a, b)
    ensures Times(a, b) == Computed(a, b) && (Times(a, b) == a * b <==> !Lost(a, b))
  {
    if Opposite(a, b) && UsesToom(a, b) {
      SubExactTimes(a, b);
      ToomValue(a, b);
    }
  }

  /** What mp_mul makes of such a pair, in either order. */
  lemma LostProduct(d: nat, a: nat, b: int)
    requires TOOM_MUL_CUTOFF - 1 <= d <= 1037 && a == W(d) + 1 && b == -(a as int)
    ensures Times(a, b) == W((d + 1) / 3) - a * a
  {
    LosesBorrow(d, a, b);
    LostNegation(a, b, (d + 1) / 3);
  }

  lemma LostProductSwapped(d: nat, a: nat, b: int)
    requires TOOM_MUL_CUTOFF - 1 <= d <= 1037 && a == W(d) + 1 && b == -(a as int)
    ensures Times(b, a) == W((d + 1) / 3) - a * a
  {
    LosesBorrow(d, a, b);
    LostNegation(b, a, (d + 1) / 3);
  }

  lemma LostNegation(a: int, b: int, n: nat)
    requires Lost(a, b) && SubExact(a, b) && ThirdOf(a, b) == n && b == -a
    ensures Times(a, b) == W(n) - a * a == W(n) - b * b
  {
    LostTimes(a, b, n);
    SignedTerm(a, a);
  }

  lemma LostTimes(a: int, b: int, n: nat)
    requires Lost(a, b) && SubExact(a, b) && ThirdOf(a, b) == n
    ensures Times(a, b) == a * b + W(n)
  {
    TimesComputed(a, b);
  }

  /** mp_mul is exact for all operands of at most m and n digits exactly if one of the two is too short for Toom-3. */
  lemma ExactUpTo(m: nat, n: nat)
    ensures (forall a: int, b: int :: Size(a) <= m && Size(b) <= n ==> Times(a, b) == a * b)
            <==> m < TOOM_MUL_CUTOFF || n < TOOM_MUL_CUTOFF
  {
    if m >= TOOM_MUL_CUTOFF && n >= TOOM_MUL_CUTOFF {
      var d := TOOM_MUL_CUTOFF - 1;
      var a: nat := W(d) + 1;
      var b: int := -(a as int);
      SparseDigits(a, d);
      LosesBorrow(d, a, b);
      LostTimes(a, b, (d + 1) / 3);
      assert Size(a) <= m && Size(b) <= n && Times(a, b) != a * b;
    }
  }

  // ----- how far off a product can be, at any depth

  lemma SignOf(a: int, b: int)
    ensures a * b < 0 <==> Opposite(a, b)
    ensures a * b == Signed((a < 0) != (b < 0), Abs(a) * Abs(b))
  {
    SignedTerm(Abs(a), Abs(b));
    Nonzero(Abs(a), Abs(b));
  }

  lemma RoundedHalf(x: int)
    ensures -1 <= 2 * Half(x) - x <= 1
  {
  }

  lemma RoundedThird(x: int)
    ensures -2 <= 3 * Third(x) - x <= 2
  {
  }

  lemma ThirdError(x: int, c: int, e: int)
    requires -(45 * e + 3) <= x - 3 * c <= 45 * e + 3 && e >= 0
    ensures Abs(Third(x) - c) <= 64 * e + 16
  {
    RoundedThird(x);
    ThirdClose(Third(x), x, c, e);
  }

  ghost predicate Close(r: Coefficients, s: Coefficients, e: int) {
    && Abs(r.c0 - s.c0) <= e && Abs(r.c1 - s.c1) <= e && Abs(r.c2 - s.c2) <= e && Abs(r.c3 - s.c3) <= e
    && Abs(r.c4 - s.c4) <= e
  }

  lemma HalfClose(h: int, x: int, y: int, sx: int, sy: int, c: int, e: int)
    requires -1 <= 2 * h - (x - y) <= 1 && Abs(x - sx) <= e && Abs(y - sy) <= e && sx - sy == 2 * c
    ensures -e - 1 <= h - c <= e + 1
  {
  }

  lemma ThirdClose(t: int, x: int, c: int, e: int)
    requires -2 <= 3 * t - x <= 2 && -(45 * e + 3) <= x - 3 * c <= 45 * e + 3 && e >= 0
    ensures Abs(t - c) <= 64 * e + 16
  {
  }

  /** The linear part of the interpolation, with h1 and h3 for the two halves. */
  lemma LinearError(r: Coefficients, p: Coefficients, h1: int, h3: int, e: int)
    requires -e <= r.c0 - p.c0 <= e && -e <= r.c4 - p.c4 <= e
    requires -e <= r.c2 - (p.c0 + p.c1 + p.c2 + p.c3 + p.c4) <= e
    requires -e - 1 <= h1 - (8 * p.c0 + 4 * p.c1 + 2 * p.c2 + p.c3) <= e + 1
    requires -e - 1 <= h3 - (p.c1 + 2 * p.c2 + 4 * p.c3 + 8 * p.c4) <= e + 1
    ensures var m := MiddleOf(r, h1, h3);
            && -(33 * e + 2) <= m.c2 - p.c2 <= 33 * e + 2
            && -(45 * e + 3) <= m.x1 - 3 * p.c1 <= 45 * e + 3
            && -(45 * e + 3) <= m.x3 - 3 * p.c3 <= 45 * e + 3
  {
  }

  lemma RoundedHalves(r: Coefficients, p: Coefficients, h1: int, h3: int, e: nat)
    requires Close(r, SamplesOf(p), e)
    requires -1 <= 2 * h1 - (r.c1 - r.c4) <= 1 && -1 <= 2 * h3 - (r.c3 - r.c0) <= 1
    ensures var m := MiddleOf(r, h1, h3);
            && -(33 * e + 2) <= m.c2 - p.c2 <= 33 * e + 2
            && -(45 * e + 3) <= m.x1 - 3 * p.c1 <= 45 * e + 3
            && -(45 * e + 3) <= m.x3 - 3 * p.c3 <= 45 * e + 3
  {
    var s := SamplesOf(p);
    HalfClose(h1, r.c1, r.c4, s.c1, s.c4, 8 * p.c0 + 4 * p.c1 + 2 * p.c2 + p.c3, e);
    HalfClose(h3, r.c3, r.c0, s.c3, s.c0, p.c1 + 2 * p.c2 + 4 * p.c3 + 8 * p.c4, e);
    LinearError(r, p, h1, h3, e);
  }

  lemma MiddleError(r: Coefficients, p: Coefficients, e: nat, m: Middle)
    requires Close(r, SamplesOf(p), e) && m == MiddleOf(r, Half(r.c1 - r.c4), Half(r.c3 - r.c0))
    ensures -(33 * e + 2) <= m.c2 - p.c2 <= 33 * e + 2
    ensures -(45 * e + 3) <= m.x1 - 3 * p.c1 <= 45 * e + 3
    ensures -(45 * e + 3) <= m.x3 - 3 * p.c3 <= 45 * e + 3
  {
    RoundedHalf(r.c1 - r.c4);
    RoundedHalf(r.c3 - r.c0);
    RoundedHalves(r, p, Half(r.c1 - r.c4), Half(r.c3 - r.c0), e);
  }

  lemma InterpolatedIs(r: Coefficients, m: Middle)
    requires m == MiddleOf(r, Half(r.c1 - r.c4), Half(r.c3 - r.c0))
    ensures Interpolated(r) == Ends(m, r.c0, r.c4)
  {
  }

  /** The three middle coefficients are off by at most d. */
  ghost predicate MiddleWithin(q: Coefficients, p: Coefficients, d: nat) {
    Abs(q.c1 - p.c1) <= d && Abs(q.c2 - p.c2) <= d && Abs(q.c3 - p.c3) <= d
  }

  lemma EndsError(m: Middle, c0: int, c4: int, p: Coefficients, e: nat)
    requires -(33 * e + 2) <= m.c2 - p.c2 <= 33 * e + 2
    requires -(45 * e + 3) <= m.x1 - 3 * p.c1 <= 45 * e + 3
    requires -(45 * e + 3) <= m.x3 - 3 * p.c3 <= 45 * e + 3
    ensures MiddleWithin(Ends(m, c0, c4), p, 64 * e + 16)
  {
    ThirdError(m.x1, p.c1, e);
    ThirdError(m.x3, p.c3, e);
  }

  /** Wrong samples give coefficients that are wrong by a bounded factor more, in spite of the roundings. */
  lemma InterpolationError(r: Coefficients, p: Coefficients, e: nat)
    requires Close(r, SamplesOf(p), e)
    ensures Interpolated(r).c0 == r.c0 && Interpolated(r).c4 == r.c4
    ensures MiddleWithin(Interpolated(r), p, 64 * e + 16)
  {
    var m := MiddleOf(r, Half(r.c1 - r.c4), Half(r.c3 - r.c0));
    InterpolatedIs(r, m);
    MiddleError(r, p, e, m);
    EndsError(m, r.c0, r.c4, p, e);
  }

  lemma TermError(x: int, y: int, d: nat, w: nat)
    requires Abs(x - y) <= d
    ensures Abs(x * w - y * w) <= d * w
  {
    assert x * w - y * w == (x - y) * w;
    MulMono(x - y, d, w);
    MulMono(y - x, d, w);
  }

  /** A lost borrow costs at most one unit of a shift. */
  lemma SlipBounds(q: Coefficients, n: nat)
    requires q.c4 != 0 && n > 0
    ensures var v1, v2, v3, v4 := q.c1 * W(n), q.c2 * W(2 * n), q.c3 * W(3 * n), q.c4 * W(4 * n);
            && Slip(Size(q.c0), q.c0, Size(q.c1) + n, v1) <= W(n)
            && Slip(Size(q.c2) + 2 * n, v2, Size(q.c3) + 3 * n, v3) <= W(3 * n)
            && forall x: int :: Slip(Size(q.c4) + 4 * n, v4, Size(x), x) == 0
  {
    SignKept(q.c1, W(n), q.c1 * W(n));
    SignKept(q.c2, W(2 * n), q.c2 * W(2 * n));
    SignKept(q.c3, W(3 * n), q.c3 * W(3 * n));
    SignKept(q.c4, W(4 * n), q.c4 * W(4 * n));
    DigitsOfZero(q.c1);
    DigitsOfZero(q.c2);
    DigitsOfZero(q.c3);
    DigitsOfZero(0);
  }

  /** How far the recombination of q is off the value of p. */
  function Deviation(q: Coefficients, p: Coefficients, n: nat): nat {
    Abs(Recombined(q, n) - AtWeight(p, n))
  }

  /** What the error of the highest coefficient amounts to. */
  function TopWeight(e: nat, n: nat): nat {
    MulMono(0, e, W(4 * n));
    e * W(4 * n)
  }

  /** Bounds for the errors of the coefficients: the lowest, the three in the middle, the highest. */
  ghost predicate ErrorsWithin(q: Coefficients, p: Coefficients, e: nat, d: nat, e4: nat) {
    Abs(q.c0 - p.c0) <= e && MiddleWithin(q, p, d) && Abs(q.c4 - p.c4) <= e4
  }

  /** What the additions make of wrong coefficients. */
  lemma RecombinationError(q: Coefficients, p: Coefficients, n: nat, e: nat, d: nat, e4: nat)
    requires ErrorsWithin(q, p, e, d, e4) && q.c4 != 0 && n > 0
    ensures Deviation(q, p, n) <= WeightsOf(e, d, n) + TopWeight(e4, n)
  {
    TermError(q.c1, p.c1, d, W(n));
    TermError(q.c2, p.c2, d, W(2 * n));
    TermError(q.c3, p.c3, d, W(3 * n));
    TermError(q.c4, p.c4, e4, W(4 * n));
    SlipBounds(q, n);
    var v1, v2, v3, v4 := q.c1 * W(n), q.c2 * W(2 * n), q.c3 * W(3 * n), q.c4 * W(4 * n);
    var s1 := Slip(Size(q.c0), q.c0, Size(q.c1) + n, v1);
    var s3 := Slip(Size(q.c2) + 2 * n, v2, Size(q.c3) + 3 * n, v3);
    assert Slip(Size(q.c4) + 4 * n, v4, Size(v2 + v3 + s3), v2 + v3 + s3) == 0;
    assert Recombined(q, n) == q.c0 + v1 + s1 + (v4 + (v2 + v3 + s3));
    SumError(Recombined(q, n) - AtWeight(p, n), q.c0 - p.c0, v1 - p.c1 * W(n), v2 - p.c2 * W(2 * n),
             v3 - p.c3 * W(3 * n), v4 - p.c4 * W(4 * n), s1, s3, e, d * W(n), d * W(2 * n), d * W(3 * n), e4 * W(4 * n),
             W(n), W(3 * n));
  }

  lemma SumError(x: int, x0: int, x1: int, x2: int, x3: int, x4: int, s1: nat, s3: nat, e0: int, e1: int, e2: int,
                 e3: int, e4: int, w1: nat, w3: nat)
    requires x == x0 + x1 + x2 + x3 + x4 + s1 + s3 && s1 <= w1 && s3 <= w3
    requires Abs(x0) <= e0 && Abs(x1) <= e1 && Abs(x2) <= e2 && Abs(x3) <= e3 && Abs(x4) <= e4
    ensures Abs(x) <= e0 + e1 + e2 + e3 + e4 + w1 + w3
  {
  }

  /** The sizes of the numbers that the five products multiply. */
  lemma SampleSizes(a: int, n: nat)
    requires 1 < n && 3 * n <= Size(a)
    ensures var m := Size(a) - 2 * n;
            && Size(High(a, n)) == m && Size(Low(a, n)) <= m + 1
            && Size(Eval(Low(a, n), Mid(a, n), High(a, n))) <= m + 1
            && Size(Eval(High(a, n), Mid(a, n), Low(a, n))) <= m + 1
            && Size(Total(High(a, n), Mid(a, n), Low(a, n))) <= m + 1
  {
    ThirdSizes(a, n);
    EvalSize(Low(a, n), Mid(a, n), High(a, n), Size(a) - 2 * n);
    EvalSize(High(a, n), Mid(a, n), Low(a, n), Size(a) - 2 * n);
  }

  lemma HighSize(a: int, n: nat)
    requires 1 < n && 3 * n <= Size(a)
    ensures Size(High(a, n)) == Size(a) - 2 * n && High(a, n) != 0
  {
    SampleSizes(a, n);
    DigitsOfZero(High(a, n));
  }

  lemma SumOfWeights(t: nat, k: nat, n: nat, e: nat, d: nat)
    requires k >= 2 * n && n >= 116 && e == W(k - 98) && d == 64 * e + 16
    requires t == e + d * W(n) + d * W(2 * n) + d * W(3 * n) + W(n) + W(3 * n)
    ensures t <= W(k + 3 * n - 96)
  {
    assert W(k - 97) == BASE * W(k - 98);
    var u := W(k + 3 * n - 97);
    WAdd(k - 97, 3 * n);
    WMono(n, 3 * n);
    WMono(2 * n, 3 * n);
    WMono(3 * n, k + 3 * n - 97);
    WMono(k - 98, k + 3 * n - 97);
    MulMono(d, W(k - 97), W(3 * n));
    FiveTerms(t, e, d, W(n), W(2 * n), W(3 * n), u);
    assert W(k + 3 * n - 96) == BASE * u;
  }

  lemma FiveTerms(t: nat, e: nat, d: nat, w1: nat, w2: nat, w3: nat, u: nat)
    requires w1 <= w3 && w2 <= w3 && w3 <= u && e <= u && d * w3 <= u
    requires t == e + d * w1 + d * w2 + d * w3 + w1 + w3
    ensures t <= BASE * u
  {
    MulMono(w1, w3, d);
    MulMono(w2, w3, d);
  }

  lemma RoomForError(dd: nat, n: nat, m: nat, t: nat, top: nat)
    requires n == m / 3 && m >= 350 && dd >= 2 * m && t <= W(dd - n - 96)
    requires top == 0 || top + W(dd - 100 - (m - 2 * n) / 2) <= W(dd - 100)
    ensures t + top + W(dd - 100 - m / 2) <= W(dd - 100)
  {
    var m4 := m - 2 * n;
    if top == 0 {
      WMono(dd - n - 96, dd - 101);
      WMono(dd - 100 - m / 2, dd - 101);
      assert W(dd - 100) == BASE * W(dd - 101);
    } else {
      WMono(dd - n - 96, dd - 101 - m4 / 2);
      WMono(dd - 100 - m / 2, dd - 101 - m4 / 2);
      assert W(dd - 100 - m4 / 2) == BASE * W(dd - 101 - m4 / 2);
    }
  }

  /** A product of x and y with at most that many digits together. */
  lemma {:induction false} SubProductError(x: int, y: int, k: nat)
    requires Size(x) + Size(y) <= k && k >= 100
    ensures Miss(x, y) <= W(k - 100)
    decreases Size(x) + Size(y), 5
  {
    if Opposite(x, y) && UsesToom(x, y) {
      TimesError(x, y);
      WMono(Size(x) + Size(y) - 100, k - 100);
    }
  }

  lemma TopProduct(x: int, y: int, i: nat, j: nat)
    requires Size(x) == i > 0 && Size(y) == j > 0
    ensures Abs(x * y) >= W(i + j - 2)
  {
    NumDigitsBelow(Abs(x), i - 1);
    NumDigitsBelow(Abs(y), j - 1);
    WAdd(i - 1, j - 1);
    LargeProduct(x, y, W(i - 1), W(j - 1));
  }

  lemma LargeProduct(x: int, y: int, p: nat, q: nat)
    requires Abs(x) >= p && Abs(y) >= q
    ensures Abs(x * y) >= p * q
  {
    SignedTerm(Abs(x), Abs(y));
    MulMono(p, Abs(x), q);
    MulMono(q, Abs(y), Abs(x));
    MulMono(0, Abs(x), Abs(y));
  }

  lemma EvaluationSizes(a: int, n: nat)
    requires 1 < n && 3 * n <= Size(a)
    ensures SmallerThan(Evaluations(a, n), Size(a) - 2 * n + 1)
  {
    SampleSizes(a, n);
  }

  ghost predicate SmallerThan(x: Coefficients, m: nat) {
    Size(x.c0) <= m && Size(x.c1) <= m && Size(x.c2) <= m && Size(x.c3) <= m && Size(x.c4) <= m
  }

  ghost predicate MissesBelow(x: Coefficients, y: Coefficients, e: nat) {
    Miss(x.c0, y.c0) <= e && Miss(x.c1, y.c1) <= e && Miss(x.c2, y.c2) <= e && Miss(x.c3, y.c3) <= e
    && Miss(x.c4, y.c4) <= e
  }

  lemma MissesClose(x: Coefficients, y: Coefficients, e: nat)
    requires MissesBelow(x, y, e)
    ensures Close(TimesOf(x, y), ProductsOf(x, y), e)
  {
  }

  /** Five products of numbers with at most that many digits. */
  lemma {:induction false} ProductsNear(x: Coefficients, y: Coefficients, i: nat, j: nat, bound: nat)
    requires SmallerThan(x, i) && SmallerThan(y, j) && 100 <= i + j < bound
    ensures MissesBelow(x, y, W(i + j - 100))
    decreases bound, 1
  {
    ProductNear(x.c0, y.c0, i, j, bound);
    ProductNear(x.c1, y.c1, i, j, bound);
    ProductNear(x.c2, y.c2, i, j, bound);
    ProductNear(x.c3, y.c3, i, j, bound);
    ProductNear(x.c4, y.c4, i, j, bound);
  }

  lemma {:induction false} ProductNear(x: int, y: int, i: nat, j: nat, bound: nat)
    requires Size(x) <= i && Size(y) <= j && 100 <= i + j < bound
    ensures Miss(x, y) <= W(i + j - 100)
    decreases bound, 0
  {
    SubProductError(x, y, i + j);
  }

  lemma SamplesClose(a: int, b: int, n: nat, e: nat)
    requires UsesToom(a, b) && n == ThirdOf(a, b) && MissesBelow(Evaluations(a, n), Evaluations(b, n), e)
    ensures Close(SubProducts(a, b), SamplesOf(ProductCoefficients(a, b, n)), e)
  {
    MissesClose(Evaluations(a, n), Evaluations(b, n), e);
    SamplesOfParts(a, b, n);
    SubProductsOf(a, b);
  }

  /** All five products are near the samples. */
  lemma {:induction false} SamplesNear(a: int, b: int, n: nat, k: nat)
    requires UsesToom(a, b) && n == ThirdOf(a, b) && k == Size(a) + Size(b) - 4 * n
    ensures k >= 2 * n && n >= 116 && Close(SubProducts(a, b), SamplesOf(ProductCoefficients(a, b, n)), W(k - 98))
    decreases Size(a) + Size(b), 2
  {
    EvaluationSizes(a, n);
    EvaluationSizes(b, n);
    ProductsNear(Evaluations(a, n), Evaluations(b, n), Size(a) - 2 * n + 1, Size(b) - 2 * n + 1, Size(a) + Size(b));
    SamplesClose(a, b, n, W(k - 98));
  }

  /** The error in the top product, if it uses Toom-3 again, moved to its place. */
  lemma {:induction false} TopError(x: int, y: int, n: nat, m: nat)
    requires Opposite(x, y) && UsesToom(x, y) && m == if Size(x) > Size(y) then Size(y) else Size(x)
    ensures var k, e4 := Size(x) + Size(y), Miss(x, y);
            TopWeight(e4, n) + W(k + 4 * n - 100 - m / 2) <= W(k + 4 * n - 100)
    decreases Size(x) + Size(y), 5
  {
    TimesError(x, y);
    var k := Size(x) + Size(y);
    ShiftError(Miss(x, y), k - 100 - m / 2, k - 100, 4 * n);
  }

  lemma ShiftError(e: nat, low: nat, high: nat, n: nat)
    requires e + W(low) <= W(high)
    ensures e * W(n) >= 0 && e * W(n) + W(low + n) <= W(high + n)
  {
    WAdd(low, n);
    WAdd(high, n);
    MulMono(e + W(low), W(high), W(n));
    Distribute(e, W(low), W(n));
    MulMono(0, e, W(n));
  }

  /** The top product has the size of its operands, and so it is not zero in spite of its error. */
  lemma {:induction false} TopNotZero(x: int, y: int)
    requires Size(x) + Size(y) >= 100 && x != 0 && y != 0
    ensures Times(x, y) != 0
    decreases Size(x) + Size(y), 6
  {
    var k := Size(x) + Size(y);
    SubProductError(x, y, k);
    DigitsOfZero(x);
    DigitsOfZero(y);
    TopProduct(x, y, Size(x), Size(y));
    WMono(k - 99, k - 2);
    assert W(k - 99) == BASE * W(k - 100);
  }

  /**
   At any depth of the recursion the product is off by less than its hundredth digit from the top: with D digits in both
   operands and m in the shorter one, by at most W(D - 100) - W(D - 100 - m / 2).
   */
  lemma {:induction false} TimesError(a: int, b: int)
    requires Opposite(a, b) && UsesToom(a, b)
    ensures var d, m := Size(a) + Size(b), if Size(a) > Size(b) then Size(b) else Size(a);
            Miss(a, b) + W(d - 100 - m / 2) <= W(d - 100)
    decreases Size(a) + Size(b), 4
  {
    var n := ThirdOf(a, b);
    var d, m := Size(a) + Size(b), if Size(a) > Size(b) then Size(b) else Size(a);
    var e4 := TopTerm(a, b, n, d, m);
    LowError(a, b, n, d - 4 * n, e4);
    RoomForError(d, n, m, W(d - n - 96), TopWeight(e4, n));
  }

  lemma CoefficientsNear(a: int, b: int, n: nat, e: nat, e4: nat)
    requires UsesToom(a, b) && n == ThirdOf(a, b) && e4 == Miss(High(a, n), High(b, n))
    requires Close(SubProducts(a, b), SamplesOf(ProductCoefficients(a, b, n)), e)
    ensures ErrorsWithin(Interpolated(SubProducts(a, b)), ProductCoefficients(a, b, n), e, 64 * e + 16, e4)
    ensures Interpolated(SubProducts(a, b)).c4 == Times(High(a, n), High(b, n))
  {
    TopCoefficient(a, b, n);
    InterpolatedWithin(SubProducts(a, b), ProductCoefficients(a, b, n), e, e4);
  }

  lemma TopCoefficient(a: int, b: int, n: nat)
    requires UsesToom(a, b) && n == ThirdOf(a, b)
    ensures SubProducts(a, b).c4 == Times(High(a, n), High(b, n))
    ensures Abs(SubProducts(a, b).c4 - ProductCoefficients(a, b, n).c4) == Miss(High(a, n), High(b, n))
  {
    SamplesOfParts(a, b, n);
  }

  lemma InterpolatedWithin(r: Coefficients, p: Coefficients, e: nat, e4: nat)
    requires Close(r, SamplesOf(p), e) && e4 == Abs(r.c4 - p.c4)
    ensures ErrorsWithin(Interpolated(r), p, e, 64 * e + 16, e4) && Interpolated(r).c4 == r.c4
  {
    InterpolationError(r, p, e);
  }

  /** The error in the top product, in the terms of the whole product. */
  lemma {:induction false} TopTerm(a: int, b: int, n: nat, d: nat, m: nat) returns (e4: nat)
    requires UsesToom(a, b) && n == ThirdOf(a, b) && d == Size(a) + Size(b)
    requires m == if Size(a) > Size(b) then Size(b) else Size(a)
    ensures Times(High(a, n), High(b, n)) != 0
    ensures e4 == Miss(High(a, n), High(b, n))
    ensures d >= 2 * m && m >= 2 * n
    ensures TopWeight(e4, n) == 0 || TopWeight(e4, n) + W(d - 100 - (m - 2 * n) / 2) <= W(d - 100)
    decreases Size(a) + Size(b), 3
  {
    var x, y := High(a, n), High(b, n);
    HighSize(a, n);
    HighSize(b, n);
    TopNotZero(x, y);
    e4 := Miss(x, y);
    if Opposite(x, y) && UsesToom(x, y) {
      TopError(x, y, n, m - 2 * n);
    } else {
      MulZero(W(4 * n));
    }
  }

  /** The errors of all but the top product together. */
  lemma {:induction false} LowError(a: int, b: int, n: nat, k: nat, e4: nat)
    requires UsesToom(a, b) && Opposite(a, b) && n == ThirdOf(a, b) && k == Size(a) + Size(b) - 4 * n
    requires Times(High(a, n), High(b, n)) != 0 && e4 == Miss(High(a, n), High(b, n))
    ensures k >= 2 * n && n >= 116 && Miss(a, b) <= W(k + 3 * n - 96) + TopWeight(e4, n)
    decreases Size(a) + Size(b), 3
  {
    SamplesNear(a, b, n, k);
    CoefficientsNear(a, b, n, W(k - 98), e4);
    ProductAtWeight(a, b, n);
    DeviationBound(Interpolated(SubProducts(a, b)), ProductCoefficients(a, b, n), n, k, e4);
  }

  lemma DeviationBound(q: Coefficients, p: Coefficients, n: nat, k: nat, e4: nat)
    requires k >= 2 * n && n >= 116 && ErrorsWithin(q, p, W(k - 98), 64 * W(k - 98) + 16, e4) && q.c4 != 0
    ensures Deviation(q, p, n) <= W(k + 3 * n - 96) + TopWeight(e4, n)
  {
    RecombinationError(q, p, n, W(k - 98), 64 * W(k - 98) + 16, e4);
    WeightsBelow(k, n);
  }

  lemma WeightsBelow(k: nat, n: nat)
    requires k >= 2 * n && n >= 116
    ensures WeightsOf(W(k - 98), 64 * W(k - 98) + 16, n) <= W(k + 3 * n - 96)
  {
    var e := W(k - 98);
    SumOfWeights(WeightsOf(e, 64 * e + 16, n), k, n, e, 64 * e + 16);
  }

  /** Both products as values at a weight. */
  lemma ProductAtWeight(a: int, b: int, n: nat)
    requires UsesToom(a, b) && Opposite(a, b) && n == ThirdOf(a, b)
    ensures Times(a, b) == Recombined(Interpolated(SubProducts(a, b)), n)
    ensures a * b == AtWeight(ProductCoefficients(a, b, n), n)
    ensures Miss(a, b) == Deviation(Interpolated(SubProducts(a, b)), ProductCoefficients(a, b, n), n)
  {
    WeightedParts(a, b, n);
  }

  function WeightsOf(e: nat, d: nat, n: nat): (t: nat)
    ensures t == e + d * W(n) + d * W(2 * n) + d * W(3 * n) + W(n) + W(3 * n)
  {
    MulMono(0, d, W(n));
    MulMono(0, d, W(2 * n));
    MulMono(0, d, W(3 * n));
    e + d * W(n) + d * W(2 * n) + d * W(3 * n) + W(n) + W(3 * n)
  }

  /** The sign of the product is right, at any depth. */
  lemma TimesSign(a: int, b: int)
    ensures Times(a, b) < 0 <==> Opposite(a, b)
    ensures Times(a, b) == 0 <==> a == 0 || b == 0
  {
    SignOf(a, b);
    Nonzero(Abs(a), Abs(b));
    if Opposite(a, b) && UsesToom(a, b) {
      TimesError(a, b);
      TopProduct(a, b, Size(a), Size(b));
      WMono(Size(a) + Size(b) - 99, Size(a) + Size(b) - 2);
      assert W(Size(a) + Size(b) - 99) == BASE * W(Size(a) + Size(b) - 100);
    }
  }

  // ----- one level deeper: no lost borrows cancel

  /** What mp_mul gives too much. */
  function Surplus(x: int, y: int): int {
    Times(x, y) - x * y
  }

  /** Nothing, or one unit of a shift of less than n - 1 digits. */
  ghost predicate OneUnit(e: int, n: nat) {
    e == 0 || exists t: nat :: 0 < t && t + 2 <= n && e == W(t)
  }

  /** Where no sub-product reaches Toom-3, the surplus is one unit of the shift, and zero exactly for exact operands. */
  lemma SurplusIsUnit(x: int, y: int, n: nat)
    requires ThirdOf(x, y) <= 346 && ThirdOf(x, y) + 2 <= n
    ensures OneUnit(Surplus(x, y), n) && (Surplus(x, y) == 0 <==> Exact(x, y))
  {
    if UsesToom(x, y) {
      OneLevel(x, y);
    }
    TimesComputed(x, y);
    if Lost(x, y) {
      assert Surplus(x, y) == W(ThirdOf(x, y));
    }
  }

  /** The five surpluses. */
  function Surpluses(x: Coefficients, y: Coefficients): Coefficients {
    Coefficients(Surplus(x.c0, y.c0), Surplus(x.c1, y.c1), Surplus(x.c2, y.c2), Surplus(x.c3, y.c3),
                 Surplus(x.c4, y.c4))
  }

  ghost predicate OneUnits(e: Coefficients, n: nat) {
    OneUnit(e.c0, n) && OneUnit(e.c1, n) && OneUnit(e.c2, n) && OneUnit(e.c3, n) && OneUnit(e.c4, n)
  }

  const NOTHING: Coefficients := Coefficients(0, 0, 0, 0, 0)

  ghost predicate AllExact(x: Coefficients, y: Coefficients) {
    Exact(x.c0, y.c0) && Exact(x.c1, y.c1) && Exact(x.c2, y.c2) && Exact(x.c3, y.c3) && Exact(x.c4, y.c4)
  }

  /** The shift of a product of parts is a third of n at most. */
  lemma PartThird(x: int, y: int, n: nat, i: nat, j: nat)
    requires Size(x) <= i && Size(y) <= j && 116 <= n <= 1037 && (i <= n + 3 || j <= n + 3)
    ensures ThirdOf(x, y) <= 346 && ThirdOf(x, y) + 2 <= n
  {
  }

  lemma PartSurpluses(a: int, b: int, n: nat)
    requires UsesToom(a, b) && n == ThirdOf(a, b) <= 1037
    ensures var x, y := Evaluations(a, n), Evaluations(b, n);
            && OneUnits(Surpluses(x, y), n) && (Surpluses(x, y) == NOTHING <==> AllExact(x, y))
  {
    var x, y := Evaluations(a, n), Evaluations(b, n);
    EvaluationSizes(a, n);
    EvaluationSizes(b, n);
    EachSurplus(x, y, n, Size(a) - 2 * n + 1, Size(b) - 2 * n + 1);
  }

  lemma EachSurplus(x: Coefficients, y: Coefficients, n: nat, i: nat, j: nat)
    requires SmallerThan(x, i) && SmallerThan(y, j) && 116 <= n <= 1037 && (i <= n + 3 || j <= n + 3)
    ensures OneUnits(Surpluses(x, y), n) && (Surpluses(x, y) == NOTHING <==> AllExact(x, y))
  {
    OneSurplus(x.c0, y.c0, n, i, j);
    OneSurplus(x.c1, y.c1, n, i, j);
    OneSurplus(x.c2, y.c2, n, i, j);
    OneSurplus(x.c3, y.c3, n, i, j);
    OneSurplus(x.c4, y.c4, n, i, j);
  }

  lemma OneSurplus(x: int, y: int, n: nat, i: nat, j: nat)
    requires Size(x) <= i && Size(y) <= j && 116 <= n <= 1037 && (i <= n + 3 || j <= n + 3)
    ensures OneUnit(Surplus(x, y), n) && (Surplus(x, y) == 0 <==> Exact(x, y))
  {
    PartThird(x, y, n, i, j);
    SurplusIsUnit(x, y, n);
  }

  /** Wrong samples. */
  function Plus(s: Coefficients, e: Coefficients): Coefficients {
    Coefficients(s.c0 + e.c0, s.c1 + e.c1, s.c2 + e.c2, s.c3 + e.c3, s.c4 + e.c4)
  }

  lemma UnitBound(e: int, n: nat)
    requires OneUnit(e, n) && n >= 2
    ensures 0 <= e <= W(n - 2) && e % 2 == 0
  {
    if e != 0 {
      var t: nat :| 0 < t && t + 2 <= n && e == W(t);
      WMono(t, n - 2);
      EvenUnit(e, W(t - 1));
    }
  }

  lemma EvenUnit(e: int, w: nat)
    requires e == BASE * w
    ensures e % 2 == 0
  {
    assert e == 2 * (BASE / 2 * w);
  }

  /** Two units are never ten times a third one. */
  lemma TenUnits(e1: int, e2: int, e3: int, n: nat)
    requires OneUnit(e1, n) && OneUnit(e2, n) && OneUnit(e3, n) && e1 + e3 == 10 * e2 && n >= 2
    ensures e1 == 0 && e2 == 0 && e3 == 0
  {
    UnitBound(e1, n);
    UnitBound(e2, n);
    UnitBound(e3, n);
    if e2 != 0 {
      SmallOrLarge(e1, e2, n);
      SmallOrLarge(e3, e2, n);
    }
  }

  lemma SmallOrLarge(x: int, y: int, n: nat)
    requires OneUnit(x, n) && OneUnit(y, n) && y != 0
    ensures 0 <= x <= y || x >= BASE * y > 0
  {
    if x != 0 {
      var t: nat :| 0 < t && t + 2 <= n && x == W(t);
      var u: nat :| 0 < u && u + 2 <= n && y == W(u);
      if t <= u {
        WMono(t, u);
      } else {
        WMono(u + 1, t);
        assert W(u + 1) == BASE * W(u);
      }
    }
  }

  /** With right outer samples, a right middle coefficient means that all samples are right. */
  lemma RightMiddle(p: Coefficients, e: Coefficients, n: nat)
    requires OneUnits(e, n) && n >= 2 && e.c0 == 0 && e.c4 == 0
    requires Interpolated(Plus(SamplesOf(p), e)).c2 == p.c2
    ensures e == NOTHING
  {
    UnitBound(e.c1, n);
    UnitBound(e.c3, n);
    var s := SamplesOf(p);
    var h1, h3 := 8 * p.c0 + 4 * p.c1 + 2 * p.c2 + p.c3, p.c1 + 2 * p.c2 + 4 * p.c3 + 8 * p.c4;
    HalfIs(s.c1 + e.c1 - s.c4, h1 + e.c1 / 2);
    HalfIs(s.c3 + e.c3 - s.c0, h3 + e.c3 / 2);
    TenUnits(e.c1, e.c2, e.c3, n);
  }

  /** x + w y is zero only for x and y zero, if x is short. */
  lemma NothingLeft(x: int, w: nat, y: int)
    requires Abs(x) < w && x + w * y == 0
    ensures x == 0 && y == 0
  {
    if y > 0 {
      MulMono(1, y, w);
    } else if y < 0 {
      MulMono(y, -1, w);
    } else {
      MulZero(w);
    }
  }

  /** Short numbers at different weights, two of them raised by one at most, add up to nothing only if all are zero. */
  lemma Separate(d: Coefficients, u: int, v: int, w: nat)
    requires ShortAt(d, w) && 0 <= u <= 1 && 0 <= v <= 1
    requires d.c0 + w * (d.c1 + u + w * (d.c2 + w * (d.c3 + v + w * d.c4))) == 0
    ensures d.c0 == 0 && d.c2 == 0 && d.c4 == 0
  {
    NothingLeft(d.c0, w, d.c1 + u + w * (d.c2 + w * (d.c3 + v + w * d.c4)));
    NothingLeft(d.c1 + u, w, d.c2 + w * (d.c3 + v + w * d.c4));
    NothingLeft(d.c2, w, d.c3 + v + w * d.c4);
    NothingLeft(d.c3 + v, w, d.c4);
  }

  /** How the two slips enter. */
  lemma SlipUnits(q: Coefficients, n: nat) returns (u: int, v: int)
    requires q.c4 != 0 && n > 0
    ensures 0 <= u <= 1 && 0 <= v <= 1 && Recombined(q, n) == AtWeight(q, n) + u * W(n) + v * W(3 * n)
  {
    SlipBounds(q, n);
    var v1, v2, v3, v4 := q.c1 * W(n), q.c2 * W(2 * n), q.c3 * W(3 * n), q.c4 * W(4 * n);
    var s1 := Slip(Size(q.c0), q.c0, Size(q.c1) + n, v1);
    var s3 := Slip(Size(q.c2) + 2 * n, v2, Size(q.c3) + 3 * n, v3);
    assert Slip(Size(q.c4) + 4 * n, v4, Size(v2 + v3 + s3), v2 + v3 + s3) == 0;
    u := if s1 == 0 then 0 else 1;
    v := if s3 == 0 then 0 else 1;
    SlipIsUnit(q, n, v1, v2, v3);
    MulZero(W(n));
    MulZero(W(3 * n));
  }

  lemma SlipIsUnit(q: Coefficients, n: nat, v1: int, v2: int, v3: int)
    requires n > 0 && v1 == q.c1 * W(n) && v2 == q.c2 * W(2 * n) && v3 == q.c3 * W(3 * n)
    ensures var s := Slip(Size(q.c0), q.c0, Size(q.c1) + n, v1); s == 0 || s == W(n)
    ensures var s := Slip(Size(q.c2) + 2 * n, v2, Size(q.c3) + 3 * n, v3); s == 0 || s == W(3 * n)
  {
    SignKept(q.c1, W(n), v1);
    SignKept(q.c2, W(2 * n), v2);
    SignKept(q.c3, W(3 * n), v3);
    DigitsOfZero(q.c0);
    DigitsOfZero(q.c1);
    DigitsOfZero(q.c2);
    DigitsOfZero(q.c3);
    DigitsOfZero(0);
  }

  /** The weights are powers of one weight. */
  lemma Horner(d: Coefficients, u: int, v: int, n: nat)
    ensures AtWeight(d, n) + u * W(n) + v * W(3 * n) ==
            d.c0 + W(n) * (d.c1 + u + W(n) * (d.c2 + W(n) * (d.c3 + v + W(n) * d.c4)))
  {
    WAdd(n, n);
    WAdd(n, 2 * n);
    WAdd(n, 3 * n);
    HornerArith(d.c0, d.c1, d.c2, d.c3, d.c4, u, v, W(n), W(2 * n), W(3 * n), W(4 * n));
  }

  lemma HornerArith(d0: int, d1: int, d2: int, d3: int, d4: int, u: int, v: int, w: int, w2: int, w3: int, w4: int)
    requires w2 == w * w && w3 == w * w2 && w4 == w * w3
    ensures d0 + d1 * w + d2 * w2 + d3 * w3 + d4 * w4 + u * w + v * w3 ==
            d0 + w * (d1 + u + w * (d2 + w * (d3 + v + w * d4)))
  {
    var f3, f2 := d3 + v + w * d4, d2 + w * (d3 + v + w * d4);
    assert w * (d1 + u + w * f2) == (d1 + u) * w + w2 * f2;
    assert w2 * f2 == d2 * w2 + w3 * f3;
    assert w3 * f3 == (d3 + v) * w3 + d4 * w4;
    Distribute(d1, u, w);
    Distribute(d3, v, w3);
  }

  function Minus(q: Coefficients, p: Coefficients): Coefficients {
    Coefficients(q.c0 - p.c0, q.c1 - p.c1, q.c2 - p.c2, q.c3 - p.c3, q.c4 - p.c4)
  }

  lemma Differences(q: Coefficients, p: Coefficients, n: nat)
    ensures AtWeight(q, n) - AtWeight(p, n) == AtWeight(Minus(q, p), n)
  {
    Distribute(q.c1, -p.c1, W(n));
    Distribute(q.c2, -p.c2, W(2 * n));
    Distribute(q.c3, -p.c3, W(3 * n));
    Distribute(q.c4, -p.c4, W(4 * n));
  }

  ghost predicate ShortAt(d: Coefficients, w: nat) {
    Abs(d.c0) < w && Abs(d.c1) + 1 < w && Abs(d.c2) < w && Abs(d.c3) + 1 < w
  }

  /** Polynomials that are close and have the same value have the same even coefficients. */
  lemma SameValue(q: Coefficients, p: Coefficients, u: int, v: int, n: nat)
    requires ShortAt(Minus(q, p), W(n)) && 0 <= u <= 1 && 0 <= v <= 1
    requires AtWeight(q, n) + u * W(n) + v * W(3 * n) == AtWeight(p, n)
    ensures q.c0 == p.c0 && q.c2 == p.c2 && q.c4 == p.c4
  {
    Differences(q, p, n);
    Horner(Minus(q, p), u, v, n);
    Separate(Minus(q, p), u, v, W(n));
  }

  /** If wrong samples still give the right value, none of them is wrong. */
  lemma RightValue(p: Coefficients, e: Coefficients, n: nat)
    requires n >= 3 && OneUnits(e, n) && p.c4 + e.c4 != 0
    requires Recombined(Interpolated(Plus(SamplesOf(p), e)), n) == AtWeight(p, n)
    ensures e == NOTHING
  {
    var q := Interpolated(Plus(SamplesOf(p), e));
    OuterKept(q, p, e);
    UnitsMiddle(p, e, n);
    CloseIsShort(q, p, e, n);
    var u, v := SlipUnits(q, n);
    SameValue(q, p, u, v, n);
    RightMiddle(p, e, n);
  }

  lemma OuterKept(q: Coefficients, p: Coefficients, e: Coefficients)
    requires q == Interpolated(Plus(SamplesOf(p), e))
    ensures q.c0 == p.c0 + e.c0 && q.c4 == p.c4 + e.c4
  {
  }

  lemma UnitsMiddle(p: Coefficients, e: Coefficients, n: nat)
    requires n >= 3 && OneUnits(e, n)
    ensures MiddleWithin(Interpolated(Plus(SamplesOf(p), e)), p, 64 * W(n - 2) + 16)
  {
    UnitsNear(SamplesOf(p), e, n);
    InterpolationError(Plus(SamplesOf(p), e), p, W(n - 2));
  }

  lemma CloseIsShort(q: Coefficients, p: Coefficients, e: Coefficients, n: nat)
    requires n >= 3 && OneUnit(e.c0, n) && q.c0 == p.c0 + e.c0 && MiddleWithin(q, p, 64 * W(n - 2) + 16)
    ensures ShortAt(Minus(q, p), W(n))
  {
    UnitBound(e.c0, n);
    ShortFrom(q, p, e.c0, W(n - 2), W(n - 1), W(n));
  }

  lemma UnitsNear(s: Coefficients, e: Coefficients, n: nat)
    requires n >= 3 && OneUnits(e, n)
    ensures Close(Plus(s, e), s, W(n - 2))
  {
    UnitBound(e.c0, n);
    UnitBound(e.c1, n);
    UnitBound(e.c2, n);
    UnitBound(e.c3, n);
    UnitBound(e.c4, n);
  }

  lemma ShortFrom(q: Coefficients, p: Coefficients, e: int, w2: nat, w1: nat, w: nat)
    requires q.c0 == p.c0 + e && 0 <= e <= w2 && MiddleWithin(q, p, 64 * w2 + 16)
    requires w == BASE * w1 && w1 == BASE * w2 && w2 > 0
    ensures ShortAt(Minus(q, p), w)
  {
  }

  /**
   Lost borrows of the sub-products never cancel: for a shorter operand of up to 3113 digits mp_mul is exact if and only
   if neither it nor one of its five sub-products loses a borrow.
   */
  lemma ExactIff(a: int, b: int)
    requires ThirdOf(a, b) <= 1037
    ensures Times(a, b) == a * b <==> Exact(a, b)
  {
    if Exact(a, b) {
      ExactTimes(a, b);
    } else if Times(a, b) == a * b {
      NoCancelling(a, b);
    }
  }

  lemma NoCancelling(a: int, b: int)
    requires Opposite(a, b) && UsesToom(a, b) && ThirdOf(a, b) <= 1037 && Times(a, b) == a * b
    ensures Exact(a, b)
  {
    var n := ThirdOf(a, b);
    var x, y := Evaluations(a, n), Evaluations(b, n);
    PartSurpluses(a, b, n);
    TopSampleNotZero(a, b, n);
    SampleSurpluses(a, b, n);
    ProductAtWeight(a, b, n);
    RightValue(ProductCoefficients(a, b, n), Surpluses(x, y), n);
    ExactParts(a, b, n);
    TimesComputed(a, b);
  }

  lemma ExactParts(a: int, b: int, n: nat)
    requires UsesToom(a, b) && n == ThirdOf(a, b) && AllExact(Evaluations(a, n), Evaluations(b, n))
    ensures SubExact(a, b)
  {
  }

  lemma SampleSurpluses(a: int, b: int, n: nat)
    requires UsesToom(a, b) && n == ThirdOf(a, b)
    ensures SubProducts(a, b) ==
            Plus(SamplesOf(ProductCoefficients(a, b, n)), Surpluses(Evaluations(a, n), Evaluations(b, n)))
  {
    SubProductsOf(a, b);
    SamplesOfParts(a, b, n);
    TimesPlus(Evaluations(a, n), Evaluations(b, n));
  }

  lemma TimesPlus(x: Coefficients, y: Coefficients)
    ensures TimesOf(x, y) == Plus(ProductsOf(x, y), Surpluses(x, y))
  {
  }

  lemma TopSampleNotZero(a: int, b: int, n: nat)
    requires UsesToom(a, b) && n == ThirdOf(a, b)
    ensures ProductCoefficients(a, b, n).c4 + Surpluses(Evaluations(a, n), Evaluations(b, n)).c4 != 0
  {
    HighSize(a, n);
    HighSize(b, n);
    TopNotZero(High(a, n), High(b, n));
    SamplesOfParts(a, b, n);
  }
}
