/** When the window machine gives the power: exactly, for every modulus, and for every content of the local array. */
module PowerLaws {
  import opened Arith
  import opened Radix
  import opened Bits
  import opened Congruences
  import DigitCounts
  import opened FoldReduction
  import opened Montgomery
  import Multiply
  import opened PowerMachine
  import opened ToomThree

  // ----- numbers that stand for powers

  /** Residues modulo p that stand for powers of g, each scaled by r, which is invertible. */
  datatype Ring = Ring(g: int, r: nat, ri: int, p: nat)

  /** v stands for g^e.  Modulo one, the initial result is not reduced. */
  ghost predicate Stands(v: nat, e: nat, c: Ring) {
    c.p > 0 && (v < c.p || (c.p == 1 && v == 1 && e == 0)) && v % c.p == (Pow(c.g, e) * c.r) % c.p
  }

  /** The reduction divides by r modulo p. */
  ghost predicate Reduces(m: Reduction, c: Ring) {
    && c.p == m.n && (c.r * c.ri) % c.p == 1 % c.p && (c.p == 1 ==> !m.Redced?)
    && forall x: nat {:trigger Reduced(m, x)} ::
         x < Prod(c.p, c.p) || (c.p == 1 && x == 1) ==> Reduced(m, x) < c.p && (Reduced(m, x) * c.r) % c.p == x % c.p
  }

  /** A reduced product stands for the sum of the exponents. */
  lemma ProductStands(x: nat, e: nat, y: nat, f: nat, v: nat, c: Ring)
    requires Stands(x, e, c) && Stands(y, f, c) && v < c.p && (c.r * c.ri) % c.p == 1 % c.p
    requires (v * c.r) % c.p == (x * y) % c.p
    ensures Stands(v, e + f, c)
  {
    ProductCongruence(x, Pow(c.g, e) * c.r, y, Pow(c.g, f) * c.r, c.p);
    PowAdd(c.g, e, f);
    ScaledProduct(Pow(c.g, e), Pow(c.g, f), c.r);
    CancelFactor(v, Pow(c.g, e + f) * c.r, c.r, c.ri, c.p);
  }

  lemma ScaledProduct(x: int, y: int, r: int)
    ensures (x * r) * (y * r) == ((x * y) * r) * r
  {
    assert (x * r) * (y * r) == (x * y) * (r * r);
    assert ((x * y) * r) * r == (x * y) * (r * r);
  }

  lemma BelowSquare(x: nat, e: nat, y: nat, f: nat, c: Ring)
    requires Stands(x, e, c) && Stands(y, f, c)
    ensures Prod(x, y) < Prod(c.p, c.p) || (c.p == 1 && Prod(x, y) == 1)
  {
    if c.p > 1 {
      Multiply.ProductBelow(x, c.p, y, c.p);
    } else if x == 0 {
      MulZero(y);
    } else if y == 0 {
      MulZero(x);
    }
  }

  lemma StaleZero(m: Reduction, x: nat, y: nat)
    ensures Stale(m, x, y, 0) == 0
  {
    MulZero(W(DigitCounts.NumDigits(x) + DigitCounts.NumDigits(y)));
  }

  lemma ReducedStands(m: Reduction, c: Ring, x: nat, e: nat, y: nat, f: nat)
    requires Reduces(m, c) && Stands(x, e, c) && Stands(y, f, c)
    ensures Stands(Reduced(m, Prod(x, y)), e + f, c)
  {
    BelowSquare(x, e, y, f, c);
    ProductStands(x, e, y, f, Reduced(m, Prod(x, y)), c);
  }

  lemma ProductOfPowers(m: Reduction, c: Ring, x: nat, e: nat, y: nat, f: nat, word: nat)
    requires Reduces(m, c) && Stands(x, e, c) && Stands(y, f, c) && (!CountsBuffer(m) || word == 0)
    ensures Stands(ReducedProduct(m, x, y, word), e + f, c)
  {
    StaleZero(m, x, y);
    ReducedStands(m, c, x, e, y, f);
  }

  lemma PowersMultiply(m: Reduction, words: nat -> Word, c: Ring, S: (nat, nat) -> bool)
    requires Reduces(m, c) && (!CountsBuffer(m) || forall i: nat :: words(i) == 0)
    requires forall v: nat, e: nat :: S(v, e) == Stands(v, e, c)
    ensures ProductsKept(m, words, S)
  {
    forall v: nat, e: nat, u: nat, f: nat, i: nat {:trigger S(v, e), S(u, f), ReducedProduct(m, v, u, words(i))}
      | S(v, e) && S(u, f) ensures S(ReducedProduct(m, v, u, words(i)), e + f) {
      ProductOfPowers(m, c, v, e, u, f, words(i));
    }
  }

  lemma PowersSquare(m: Reduction, c: Ring, S: (nat, nat) -> bool)
    requires Reduces(m, c)
    requires forall v: nat, e: nat :: S(v, e) == Stands(v, e, c)
    ensures SquaresKept(m, S)
  {
    forall v: nat, e: nat {:trigger S(v, e), ReducedSquare(m, v)} | S(v, e) ensures S(ReducedSquare(m, v), 2 * e) {
      ReducedStands(m, c, v, e, v, e);
    }
  }

  /** Any sound reduction, without a counted word other than zero, takes the machine from g^0 and g^1 to g^x. */
  lemma PoweredStands(m: Reduction, ws: Words, c: Ring, one: nat, start: nat, x: nat)
    requires Reduces(m, c) && Quiet(m, ws, one, start, x) && Stands(start, 0, c) && Stands(one, 1, c)
    ensures Stands(Powered(m, ws, one, start, x), x, c)
  {
    var zeros := AllWords(0);
    PoweredCovered(m, ws, zeros, one, start, x);
    var S := (v: nat, e: nat) => Stands(v, e, c);
    PowersSquare(m, c, S);
    PowersMultiply(m, zeros.table, c, S);
    PowersMultiply(m, zeros.result, c, S);
    PoweredTracks(m, zeros, S, one, start, x);
  }

  // ----- Barrett reduction and the long fold

  /** g^x mod p, except that modulo one the exponent zero leaves the one that the result starts as. */
  function PowerModulo(g: int, x: nat, p: nat): (r: nat)
    requires p > 0
  {
    DivMod(Pow(g, x), p);
    if p == 1 && x == 0 then 1 else Pow(g, x) % p
  }

  /** The start values of the plain reductions. */
  lemma PlainStart(g: int, c: Ring)
    requires c.p > 0 && c.g == g && c.r == 1
    ensures g % c.p >= 0 && Stands(1, 0, c) && Stands(g % c.p, 1, c)
  {
    DivMod(g, c.p);
    RemainderIs(g, c.p);
    assert Pow(g, 1) == g * Pow(g, 0);
  }

  /** A number that stands for a power without a factor is its residue. */
  lemma PlainResult(v: nat, x: nat, c: Ring)
    requires Stands(v, x, c) && c.r == 1
    ensures v == if c.p == 1 && x == 0 then v else PowerModulo(c.g, x, c.p)
  {
    if v < c.p {
      DivUnique(v, c.p, 0, v);
    }
  }

  /** With the exponent zero the start value stays. */
  lemma PoweredZero(m: Reduction, ws: Words, one: nat, start: nat)
    ensures Powered(m, ws, one, start, 0) == start
  {
  }

  lemma PlainPower(m: Reduction, ws: Words, g: int, x: nat)
    requires !m.Redced? && forall a: nat {:trigger Reduced(m, a)} :: Reduced(m, a) == a % m.n
    ensures g % m.n >= 0 && Powered(m, ws, g % m.n, 1, x) == PowerModulo(g, x, m.n)
  {
    var c := Ring(g, 1, 1, m.n);
    assert Reduces(m, c) by {
      forall a: nat {:trigger Reduced(m, a)} | true
        ensures Reduced(m, a) < c.p && (Reduced(m, a) * c.r) % c.p == a % c.p
      {
        DivMod(a, c.p);
        RemainderIs(a, c.p);
      }
    }
    PlainStart(g, c);
    HarmlessQuiet(m, ws, g % m.n, 1, x);
    PoweredStands(m, ws, c, g % m.n, 1, x);
    PlainResult(Powered(m, ws, g % m.n, 1, x), x, c);
    PoweredZero(m, ws, g % m.n, 1);
  }

  // ----- the single-digit fold

  /** The reduction constant that mp_reduce_2k_setup finds. */
  function FoldDigitOf(n: nat): (m: Reduction)
    requires n > 0
    ensures m == Folding(n, (Pow2(BitCount(n)) - n) % BASE, Pow2(BitCount(n)))
  {
    BitCountBounds(n);
    var pw := Pow2(BitCount(n));
    DivMod(pw - n, BASE);
    FoldKept(pw - n);
    Folding(n, (pw - n) % BASE, pw)
  }

  lemma FoldKept(x: nat)
    ensures x % BASE <= x && x % BASE < BASE
  {
  }

  lemma FoldConstant(n: nat, d: nat)
    requires n > 0 && d == (Pow2(BitCount(n)) - n) % BASE
    ensures d < BASE && d + n <= Pow2(BitCount(n)) && FoldDigitOf(n) == Folding(n, d, Pow2(BitCount(n)))
  {
    BitCountBounds(n);
    FoldKept(Pow2(BitCount(n)) - n);
  }

  /** What mp_exptmod_fast gives with redmode 2. */
  function FoldPower(g: int, x: nat, n: nat): nat
    requires n > 0
  {
    DivMod(g, n);
    Powered(FoldDigitOf(n), AllWords(0), g % n, 1, x)
  }

  lemma FoldPowerAnyWords(g: int, x: nat, n: nat, ws: Words)
    requires n > 0
    ensures g % n >= 0 && FoldPower(g, x, n) == Powered(FoldDigitOf(n), ws, g % n, 1, x)
  {
    DivMod(g, n);
    PoweredIgnores(FoldDigitOf(n), ws, AllWords(0), g % n, 1, x);
  }

  lemma FoldPowerRight(g: int, x: nat, n: nat)
    requires n > 0 && FitsDigit(n)
    ensures FoldPower(g, x, n) == PowerModulo(g, x, n)
  {
    var m := FoldDigitOf(n);
    forall a: nat {:trigger Reduced(m, a)} | true ensures Reduced(m, a) == a % n {
      FoldedResidue(a, n, m.d, m.pw);
    }
    PlainPower(m, AllWords(0), g, x);
  }

  lemma PowersOfTwo(e: nat)
    ensures Pow(2, e) == Pow2(e)
  {
  }

  /** A modulus that is itself a power of two has a constant that fits. */
  lemma PowerFits(n: nat)
    requires n > 0 && n == Pow2(BitCount(n) - 1) && BitCount(n) > 0
    ensures FitsDigit(n)
  {
    PowerFitsAt(n, BitCount(n));
  }

  lemma PowerFitsAt(n: nat, k: nat)
    requires k > 0 && n == Pow2(k - 1)
    ensures Pow2(k) % n == ((Pow2(k) - n) % BASE) % n
  {
    if n >= BASE {
      PowerAboveDigit(k - 1, n);
    }
    DoubleFits(Pow2(k), n);
  }

  lemma DoubleFits(pw: nat, n: nat)
    requires n > 0 && pw == 2 * n && (n < BASE || n % BASE == 0)
    ensures pw % n == ((pw - n) % BASE) % n
  {
    DivUnique(pw, n, 2, 0);
    if n < BASE {
      DivUnique(n, BASE, 0, n);
      DivUnique(n, n, 1, 0);
    } else {
      DivUnique(0, n, 0, 0);
    }
  }

  lemma PowerAboveDigit(t: nat, n: nat)
    requires n == Pow2(t) >= BASE
    ensures n % BASE == 0
  {
    Pow2Digit();
    if t < DIGIT_BIT {
      Pow2Mono(t, DIGIT_BIT - 1);
    }
    Pow2Add(t - DIGIT_BIT, DIGIT_BIT);
    DivUnique(n, BASE, Pow2(t - DIGIT_BIT), 0);
  }

  /** Below the modulus's bit count a power of two is its own residue; at the bit count the fold gives the constant. */
  ghost predicate PowerOfTwo(v: nat, e: nat, n: nat, d: nat)
    requires n > 0
  {
    e <= BitCount(n) ==> v == if e == BitCount(n) then d % n else Pow2(e)
  }

  lemma PowerOfTwoKept(v: nat, e: nat, u: nat, f: nat, n: nat, m: Reduction)
    requires n > 0 && m == FoldDigitOf(n) && !FitsDigit(n) && PowerOfTwo(v, e, n, m.d) && PowerOfTwo(u, f, n, m.d)
    ensures PowerOfTwo(Folded(Prod(v, u), n, m.d, m.pw), e + f, n, m.d)
  {
    var b := BitCount(n);
    BitCountBounds(n);
    if e + f < b {
      Pow2Add(e, f);
      SmallPower(n, e + f, m);
    } else if e + f == b && e > 0 && f > 0 {
      Pow2Add(e, f);
      FoldedPower(n, m.d, m.pw);
    } else if e + f == b {
      assert Pow2(0) == 1 && Prod(v, u) == m.d % n;
      RemainderIs(m.d, n);
      FoldedBelow(m.d % n, n, m.d, m.pw);
    }
  }

  lemma SmallPower(n: nat, e: nat, m: Reduction)
    requires n > 0 && m == FoldDigitOf(n) && !FitsDigit(n) && e < BitCount(n)
    ensures Folded(Pow2(e), n, m.d, m.pw) == Pow2(e) < n
  {
    var b := BitCount(n);
    BitCountBounds(n);
    Pow2Mono(e, b - 1);
    if Pow2(b - 1) == n {
      PowerFits(n);
    }
    FoldedBelow(Pow2(e), n, m.d, m.pw);
    DivUnique(Pow2(e), n, 0, Pow2(e));
  }

  lemma PowerOfTwoClosed(n: nat, m: Reduction, S: (nat, nat) -> bool)
    requires n > 0 && m == FoldDigitOf(n) && !FitsDigit(n)
    requires forall v: nat, e: nat :: S(v, e) == PowerOfTwo(v, e, n, m.d)
    ensures Closed(m, AllWords(0), S)
  {
    var ws := AllWords(0);
    forall v: nat, e: nat {:trigger S(v, e), ReducedSquare(m, v)} | S(v, e) ensures S(ReducedSquare(m, v), 2 * e) {
      PowerOfTwoKept(v, e, v, e, n, m);
    }
    forall v: nat, e: nat, u: nat, f: nat, i: nat {:trigger S(v, e), S(u, f), ReducedProduct(m, v, u, ws.table(i))}
      | S(v, e) && S(u, f) ensures S(ReducedProduct(m, v, u, ws.table(i)), e + f) {
      PowerOfTwoKept(v, e, u, f, n, m);
    }
    assert ProductsKept(m, ws.table, S);
    assert ProductsKept(m, ws.result, S);
  }

  /** The input that shows a constant to be wrong: two, to the bit count of the modulus. */
  lemma FoldPowerWrong(n: nat)
    requires n > 0 && !FitsDigit(n)
    ensures var b := BitCount(n);
            && FoldPower(2, b, n) == ((Pow2(b) - n) % BASE) % n
            && FoldPower(2, b, n) != Pow(2, b) % n
  {
    var m, b := FoldDigitOf(n), BitCount(n);
    var S := (v: nat, e: nat) => PowerOfTwo(v, e, n, m.d);
    BitCountBounds(n);
    PowerOfTwoClosed(n, m, S);
    SmallPower(n, b - 1, m);
    assert Pow2(0) == 1 && Pow2(1) == 2;
    if b >= 2 {
      SmallPower(n, 1, m);
      DivUnique(2, n, 0, 2);
      PoweredTracks(m, AllWords(0), S, 2, 1, b);
      PowersOfTwo(b);
    }
  }

  /** mp_exptmod_fast with redmode 2 gives every power exactly when the constant fits a digit. */
  lemma FoldPowerIff(n: nat)
    requires n > 1
    ensures (forall g: int, x: nat :: FoldPower(g, x, n) == Pow(g, x) % n) <==> FitsDigit(n)
  {
    if FitsDigit(n) {
      forall g: int, x: nat ensures FoldPower(g, x, n) == Pow(g, x) % n {
        FoldPowerRight(g, x, n);
      }
    } else {
      FoldPowerWrong(n);
    }
  }

  /** The moduli for which the constant is wrong: for them the code gives 0 where the power is 2^28. */
  lemma BadModulusPower(n: nat, j: nat)
    requires 2 <= j < DIGIT_BIT && n == (Pow2(j) - 1) * BASE
    ensures n > 0 && FoldPower(2, j + DIGIT_BIT, n) == 0 && Pow(2, j + DIGIT_BIT) % n == BASE
  {
    DistanceIsBase(n, j);
    BitCountOf(n, j);
    FoldPowerWrong(n);
    DivUnique(BASE, BASE, 1, 0);
    DivUnique(0, n, 0, 0);
    PowersOfTwo(j + DIGIT_BIT);
    Pow2Mono(2, j);
    MulMono(3, Pow2(j) - 1, BASE);
    DivUnique(n + BASE, n, 1, BASE);
  }

  lemma BitCountOf(n: nat, j: nat)
    requires 2 <= j < DIGIT_BIT && n == (Pow2(j) - 1) * BASE
    ensures BitCount(n) == j + DIGIT_BIT
  {
    Pow2Mono(2, j);
    Pow2Digit();
    Pow2Add(j, DIGIT_BIT);
    Pow2Add(j - 1, DIGIT_BIT);
    Distribute(Pow2(j), -1, BASE);
    BitCountIs(n, j + DIGIT_BIT);
  }

  // ----- the Montgomery form

  /** R mod P, the start value of the result. */
  function StartOf(n: nat): nat
    requires n > 0
  {
    W(DigitCounts.NumDigits(n)) % n
  }

  /** G * R mod P, the first cell, as mp_mul multiplies. */
  function FirstOf(g: int, n: nat): nat
    requires n > 0
  {
    DivMod(Times(g, StartOf(n)), n);
    Times(g, StartOf(n)) % n
  }

  /** What mp_exptmod_fast gives with redmode 0. */
  function FastPower(g: int, x: nat, n: nat, rho: nat, ws: Words): nat
    requires n > 0
  {
    var m := Redced(n, DigitCounts.NumDigits(n), rho);
    Reduced(m, Powered(m, ws, FirstOf(g, n), StartOf(n), x))
  }

  ghost predicate OddModulus(n: nat, rho: nat) {
    n > 1 && n % 2 == 1 && Rho(n, rho)
  }

  lemma RangeForMontgomery(x: int, n: nat, w: nat)
    requires x < n * n && n < w
    ensures x < n * (w + 1)
  {
    MulMono(n, w + 1, n);
  }

  lemma RedcReduces(n: nat, rho: nat, c: Ring)
    requires OddModulus(n, rho) && c.p == n && c.r == W(DigitCounts.NumDigits(n)) && (c.r * c.ri) % n == 1 % n
    ensures Reduces(Redced(n, DigitCounts.NumDigits(n), rho), c)
  {
    var m: Reduction := Redced(n, DigitCounts.NumDigits(n), rho);
    DigitCounts.NumDigitsBelow(n, DigitCounts.NumDigits(n));
    forall x: nat {:trigger Reduced(m, x)} | x < Prod(n, n)
      ensures Reduced(m, x) < n && (Reduced(m, x) * c.r) % n == x % n
    {
      RangeForMontgomery(x, n, W(DigitCounts.NumDigits(n)));
      RedcIsReduction(x, n, rho, DigitCounts.NumDigits(n));
    }
  }

  /** R has an inverse modulo an odd number. */
  function RadixInverse(n: nat): int {
    Pow((n + 1) / 2, DIGIT_BIT * DigitCounts.NumDigits(n))
  }

  lemma RadixInverts(n: nat)
    requires n % 2 == 1
    ensures (W(DigitCounts.NumDigits(n)) * RadixInverse(n)) % n == 1 % n
  {
    WIsPow2(DigitCounts.NumDigits(n));
    Pow2Inverse(DIGIT_BIT * DigitCounts.NumDigits(n), n);
  }

  /** The base that the machine works with, by its first cell. */
  function BaseOf(g: int, n: nat): int
    requires n > 0
  {
    FirstOf(g, n) * RadixInverse(n)
  }

  lemma FirstStands(g: int, n: nat, c: Ring)
    requires n > 1 && n % 2 == 1 && c == Ring(BaseOf(g, n), W(DigitCounts.NumDigits(n)), RadixInverse(n), n)
    ensures Stands(StartOf(n), 0, c) && Stands(FirstOf(g, n), 1, c)
  {
    RadixInverts(n);
    DivMod(Times(g, StartOf(n)), n);
    StartStands(n, c);
    UnitStands(FirstOf(g, n), c);
  }

  lemma StartStands(n: nat, c: Ring)
    requires n > 0 && c.p == n && c.r == W(DigitCounts.NumDigits(n))
    ensures Stands(StartOf(n), 0, c)
  {
    DivMod(c.r, n);
    RemainderIs(c.r, n);
  }

  /** Any residue stands for the first power of its quotient by r. */
  lemma UnitStands(v: nat, c: Ring)
    requires v < c.p && (c.r * c.ri) % c.p == 1 % c.p && c.g == v * c.ri
    ensures Stands(v, 1, c)
  {
    ScaleCongruence(c.r * c.ri, 1, c.p, v);
    assert (c.r * c.ri) * v == (v * c.ri) * c.r;
    assert Pow(c.g, 1) == c.g * Pow(c.g, 0);
  }

  /** The factor of the Montgomery form is taken off by one more reduction. */
  lemma TakeOff(v: nat, v': nat, e: nat, c: Ring)
    requires c.p > 1 && Stands(v, e, c) && (c.r * c.ri) % c.p == 1 % c.p && v' < c.p
    requires (v' * c.r) % c.p == v % c.p
    ensures v' == Pow(c.g, e) % c.p
  {
    CancelFactor(v', Pow(c.g, e), c.r, c.ri, c.p);
    DivUnique(v', c.p, 0, v');
  }

  /** In the run for g^x every unwritten word that is counted is zero. */
  predicate QuietPower(g: int, x: nat, n: nat, rho: nat, ws: Words)
    requires n > 0
  {
    Quiet(Redced(n, DigitCounts.NumDigits(n), rho), ws, FirstOf(g, n), StartOf(n), x)
  }

  /** That is so for short moduli, and if all words are zero. */
  lemma ShortIsQuiet(g: int, x: nat, n: nat, rho: nat, ws: Words)
    requires n > 0 && (DigitCounts.NumDigits(n) <= MAX_MODULUS || Silent(ws))
    ensures QuietPower(g, x, n, rho, ws)
  {
    HarmlessQuiet(Redced(n, DigitCounts.NumDigits(n), rho), ws, FirstOf(g, n), StartOf(n), x);
  }

  /** No product of the run for g^x takes the comba branch, so no word is copied. */
  predicate UncopiedPower(g: int, x: nat, n: nat, rho: nat)
    requires n > 0
  {
    NeverCopies(Redced(n, DigitCounts.NumDigits(n), rho), FirstOf(g, n), StartOf(n), x)
  }

  /** Then the words do not matter. */
  lemma UncopiedIsQuiet(g: int, x: nat, n: nat, rho: nat, ws: Words)
    requires n > 0 && UncopiedPower(g, x, n, rho)
    ensures QuietPower(g, x, n, rho, ws)
    ensures FastPower(g, x, n, rho, ws) == FastPower(g, x, n, rho, AllWords(0))
  {
    NeverCopiesIff(Redced(n, DigitCounts.NumDigits(n), rho), FirstOf(g, n), StartOf(n), x);
  }

  /** Where every counted word is zero, the result is the power of the base that the first cell stands for. */
  lemma FastPowerOfBase(g: int, x: nat, n: nat, rho: nat, ws: Words)
    requires OddModulus(n, rho) && QuietPower(g, x, n, rho, ws)
    ensures FastPower(g, x, n, rho, ws) == Pow(BaseOf(g, n), x) % n
  {
    var m: Reduction := Redced(n, DigitCounts.NumDigits(n), rho);
    var c := Ring(BaseOf(g, n), W(DigitCounts.NumDigits(n)), RadixInverse(n), n);
    RadixInverts(n);
    RedcReduces(n, rho, c);
    FirstStands(g, n, c);
    PoweredStands(m, ws, c, FirstOf(g, n), StartOf(n), x);
    var v := Powered(m, ws, FirstOf(g, n), StartOf(n), x);
    MulMono(1, n, n);
    TakeOff(v, FastPower(g, x, n, rho, ws), x, c);
  }

  /** The product that makes the first cell is right modulo the modulus. */
  predicate FirstRight(g: int, n: nat)
    requires n > 0
  {
    Times(g, StartOf(n)) % n == (g * StartOf(n)) % n
  }

  lemma BaseRight(g: int, n: nat)
    requires n > 1 && n % 2 == 1
    ensures FirstRight(g, n) <==> BaseOf(g, n) % n == g % n
  {
    RadixInverts(n);
    RemainderIs(W(DigitCounts.NumDigits(n)), n);
    RemainderIs(Times(g, StartOf(n)), n);
    CellQuotient(FirstOf(g, n), g, StartOf(n), W(DigitCounts.NumDigits(n)), RadixInverse(n), n);
  }

  lemma CellQuotient(one: int, g: int, s: int, r: int, ri: int, n: int)
    requires n > 0 && (r * ri) % n == 1 % n && s % n == r % n
    ensures one % n == (g * s) % n <==> (one * ri) % n == g % n
  {
    ProductCongruence(g, g, s, r, n);
    ScaleCongruence(r * ri, 1, n, one);
    assert (r * ri) * one == (one * ri) * r;
    if one % n == (g * s) % n {
      CancelFactor(one * ri, g, r, ri, n);
    } else if (one * ri) % n == g % n {
      ScaleCongruence(one * ri, g, n, r);
    }
  }

  lemma FastPowerRight(g: int, x: nat, n: nat, rho: nat, ws: Words)
    requires OddModulus(n, rho) && QuietPower(g, x, n, rho, ws) && FirstRight(g, n)
    ensures FastPower(g, x, n, rho, ws) == Pow(g, x) % n
  {
    BaseRight(g, n);
    FastPowerOfBase(g, x, n, rho, ws);
    PowCongruence(BaseOf(g, n), g, x, n);
  }

  /**
   Where no unwritten word counts, every power of g comes out right exactly when the first cell does; it always does for
   g >= 0 and for a modulus or a base of less than 350 digits.
   */
  lemma FastPowerIsPower(g: int, n: nat, rho: nat, ws: Words)
    requires OddModulus(n, rho) && forall x: nat :: QuietPower(g, x, n, rho, ws)
    ensures (forall x: nat :: FastPower(g, x, n, rho, ws) == Pow(g, x) % n) <==> FirstRight(g, n)
  {
    if FirstRight(g, n) {
      forall x: nat ensures FastPower(g, x, n, rho, ws) == Pow(g, x) % n {
        FastPowerRight(g, x, n, rho, ws);
      }
    } else {
      BaseRight(g, n);
      assert QuietPower(g, 1, n, rho, ws);
      FastPowerOfBase(g, 1, n, rho, ws);
      assert Pow(g, 1) == g * Pow(g, 0) && Pow(BaseOf(g, n), 1) == BaseOf(g, n) * Pow(BaseOf(g, n), 0);
    }
  }

  lemma FirstIsRight(g: int, n: nat)
    requires n > 0 && (g >= 0 || DigitCounts.NumDigits(n) < TOOM_MUL_CUTOFF || Size(g) < TOOM_MUL_CUTOFF)
    ensures FirstRight(g, n)
  {
    DivMod(W(DigitCounts.NumDigits(n)), n);
    SizeAtMost(StartOf(n), n);
  }

  lemma SizeAtMost(x: nat, n: nat)
    requires x <= n
    ensures DigitCounts.NumDigits(x) <= DigitCounts.NumDigits(n)
  {
    DigitCounts.NumDigitsBelow(n, DigitCounts.NumDigits(n));
    DigitCounts.NumDigitsBelow(x, DigitCounts.NumDigits(n));
  }

  // ----- more than 255 digits

  lemma {:induction false} RedcZero(n: nat, rho: nat, k: nat)
    requires n > 0
    ensures Redc(0, n, rho, k) == 0
  {
    MulZero(rho);
    MulZero(n);
    assert Multiplier(0, rho) == 0;
    if k > 0 {
      RedcZero(n, rho, k - 1);
    }
  }

  /** A stale digit is not reduced to zero. */
  lemma DigitStays(d: nat, n: nat, rho: nat, k: nat)
    requires OddModulus(n, rho) && n >= BASE && 0 < d < BASE
    ensures 0 < Redc(d, n, rho, k) < n && (Redc(d, n, rho, k) * W(k)) % n == d
  {
    MulMono(1, W(k) + 1, n);
    RedcIsReduction(d, n, rho, k);
    DivUnique(d, n, 0, d);
    MulZero(W(k));
    DivUnique(0, n, 0, 0);
  }

  /** The cells of the table that the exponent three uses, for a base that is a multiple of the modulus. */
  lemma SpoiledCell(m: Reduction, ws: Words)
    requires m.Redced? && m.k > MAX_MODULUS
    ensures CellValue(m, ws, 0, 2, 3) == Redc(ws.table(3), m.n, m.rho, m.k)
  {
    RedcZero(m.n, m.rho, m.k);
    assert Pow2(1) == 2 && Pow2(0) == 1;
    assert Squares(m, 0, 0) == 0;
    MulZero(0);
    assert Squares(m, 0, 1) == ReducedSquare(m, 0) == 0;
    assert CellValue(m, ws, 0, 2, 2) == 0;
    DigitCounts.NumDigitsBelow(0, 0);
    assert DigitCounts.NumDigits(0) == 0 && W(0) == 1;
    assert Stale(m, 0, 0, ws.table(3)) == Prod(ws.table(3), 1) == ws.table(3);
  }

  /** The exponent three is one full window. */
  lemma ThreeIsOneWindow(m: Reduction, ws: Words, one: nat, start: nat)
    ensures Powered(m, ws, one, start, 3)
         == ReducedProduct(m, Squares(m, start, 2), CellValue(m, ws, one, 2, 3), ws.result(3))
  {
    assert BitCount(3) == 2 by {
      assert BitCount(1) == 1;
    }
    BitsOfThree();
    TwoOnes(m, ws, one, start, 2, 1, 3);
  }

  /** The bits of three fill a window of two. */
  lemma TwoOnes(m: Reduction, ws: Words, one: nat, start: nat, w: nat, y: nat, x: nat)
    requires w == 2 && y == 1 && x == 3
    requires WithBit(State(0, 0, 0), w, y) == 2 && WithBit(State(2, 1, 2), w, y) == 3 && Prod(0, Pow2(w)) == 0
    ensures PrefixState(m, ws, one, start, w, x) ==
            Progress(State(1, 0, 0),
                     ReducedProduct(m, Squares(m, start, w), CellValue(m, ws, one, w, x), ws.result(x)), x)
  {
    var p0, p1 := Progress(State(0, 0, 0), start, 0), Progress(State(2, 1, 2), start, 0);
    OpenAdvance(m, ws, one, w, p0, y, 2);
    FullAdvance(m, ws, one, w, p1, y, x);
    assert y / 2 == 0 && x / 2 == y && x % 2 == y && y % 2 == y;
    assert PrefixState(m, ws, one, start, w, 0) == p0;
    assert PrefixState(m, ws, one, start, w, y) == p1;
  }

  lemma BitsOfThree()
    ensures WithBit(State(0, 0, 0), 2, 1) == 2 && WithBit(State(2, 1, 2), 2, 1) == 3 && Prod(0, Pow2(2)) == 0
  {
    assert Pow2(0) == 1 && Pow2(1) == 2;
    assert Prod(1, Pow2(1)) == 2 && Prod(1, Pow2(0)) == 1;
    MulZero(Pow2(2));
  }

  /**
   For an odd modulus of more than 255 digits one unwritten word is enough: with the base zero and the exponent three,
   cell 3 is the product of two zeros, whose comba form copies word 0 of its array and nothing else.
   */
  lemma UnwrittenWordSpoils(n: nat, rho: nat, ws: Words)
    requires OddModulus(n, rho) && DigitCounts.NumDigits(n) > MAX_MODULUS
    requires 0 < ws.table(3) < BASE && ws.result(3) == 0
    ensures FastPower(0, 3, n, rho, ws) != 0 && Pow(0, 3) % n == 0
  {
    var k := DigitCounts.NumDigits(n);
    var m: Reduction := Redced(n, k, rho);
    AboveDigits(n, k);
    MulZero(StartOf(n));
    DivUnique(0, n, 0, 0);
    assert FirstOf(0, n) == 0;
    SpoiledCell(m, ws);
    ThreeIsOneWindow(m, ws, 0, StartOf(n));
    var d := ws.table(3);
    DigitStays(d, n, rho, k);
    var s, r := Redc(d, n, rho, k), Squares(m, StartOf(n), 2);
    StaleZero(m, r, s);
    StartSquares(n, rho, m);
    SpoiledResult(n, rho, k, r, s);
    assert Pow(0, 3) == 0 * Pow(0, 2);
  }

  lemma AboveDigits(n: nat, k: nat)
    requires k == DigitCounts.NumDigits(n) > MAX_MODULUS
    ensures n >= BASE && n < W(k)
  {
    DigitCounts.NumDigitsBelow(n, 1);
    DigitCounts.NumDigitsBelow(n, k);
    assert W(1) == BASE * W(0);
  }

  /** Squaring keeps what stands for g^0. */
  lemma StartSquares(n: nat, rho: nat, m: Reduction)
    requires OddModulus(n, rho) && m == Redced(n, DigitCounts.NumDigits(n), rho)
    ensures Squares(m, StartOf(n), 2) < n && Squares(m, StartOf(n), 2) % n == W(DigitCounts.NumDigits(n)) % n
  {
    var c := Ring(1, W(DigitCounts.NumDigits(n)), RadixInverse(n), n);
    RadixInverts(n);
    RedcReduces(n, rho, c);
    RemainderIs(c.r, n);
    DivMod(c.r, n);
    assert Pow(1, 0) == 1;
    assert Stands(StartOf(n), 0, c);
    ReducedStands(m, c, StartOf(n), 0, StartOf(n), 0);
    var q := ReducedSquare(m, StartOf(n));
    ReducedStands(m, c, q, 0, q, 0);
    assert Squares(m, StartOf(n), 1) == q by {
      assert Squares(m, StartOf(n), 0) == StartOf(n);
    }
  }

  /** The spoiled cell reaches the result. */
  lemma SpoiledResult(n: nat, rho: nat, k: nat, r: nat, s: nat)
    requires OddModulus(n, rho) && n < W(k) && k == DigitCounts.NumDigits(n) && r < n && 0 < s < n && r % n == W(k) % n
    ensures Redc(Redc(Prod(r, s), n, rho, k), n, rho, k) != 0
  {
    Multiply.ProductBelow(r, n, s, n);
    RangeForMontgomery(Prod(r, s), n, W(k));
    RedcIsReduction(Prod(r, s), n, rho, k);
    var v := Redc(Prod(r, s), n, rho, k);
    ScaleCongruence(r, W(k), n, s);
    assert W(k) * s == s * W(k);
    RadixInverts(n);
    CancelFactor(v, s, W(k), RadixInverse(n), n);
    DivUnique(v, n, 0, v);
    DivUnique(s, n, 0, s);
    MulMono(1, W(k) + 1, n);
    RedcIsReduction(v, n, rho, k);
    MulZero(W(k));
    DivUnique(0, n, 0, 0);
  }

  /** Every base, every exponent and every content of the local array gives the power. */
  ghost predicate AlwaysRight(n: nat, rho: nat)
    requires n > 0
  {
    forall g: int, x: nat, ws: Words :: DigitWords(ws) ==> FastPower(g, x, n, rho, ws) == Pow(g, x) % n
  }

  /** mp_exptmod_fast with Montgomery reduction can be relied on exactly for moduli of at most 255 digits. */
  lemma AlwaysRightIff(n: nat, rho: nat)
    requires OddModulus(n, rho)
    ensures AlwaysRight(n, rho) <==> DigitCounts.NumDigits(n) <= MAX_MODULUS
  {
    if DigitCounts.NumDigits(n) <= MAX_MODULUS {
      forall g: int, x: nat, ws: Words | DigitWords(ws) ensures FastPower(g, x, n, rho, ws) == Pow(g, x) % n {
        FirstIsRight(g, n);
        ShortIsQuiet(g, x, n, rho, ws);
        FastPowerRight(g, x, n, rho, ws);
      }
    } else {
      var ws := Words(i => if i == 3 then 1 else 0, _ => 0);
      UnwrittenWordSpoils(n, rho, ws);
      assert DigitWords(ws);
    }
  }
}
