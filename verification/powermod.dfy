/** mp_exptmod: which exponentiator a modulus gets, and negative exponents. */
module ModularPower {
  import opened Arith
  import opened Radix
  import opened MpInts
  import opened Bits
  import opened Congruences
  import opened PowerMachine
  import opened PowerLaws
  import ToomThree
  import Montgomery
  import FoldReduction
  import opened Exponentiation
  import DigitCounts
  import Divisors
  import opened Inverse
  import GreatestCommonDivisor

  // ----- what the modulus looks like

  /** How many of the first n digits have all bits set. */
  function CountFull(s: seq<nat>, n: nat): nat
    requires n <= |s|
  {
    if n == 0 then 0 else CountFull(s, n - 1) + if s[n - 1] == BASE - 1 then 1 else 0
  }

  ghost predicate FullEnough(a: MpInt)
    requires a.used <= |a.dp|
    reads a
  {
    a.used == 1 || (a.used > 1 && CountFull(a.dp, a.used) >= a.used / 2)
  }

  /** mp_reduce_is_2k_l */
  method Is2kL(a: MpInt) returns (yes: bool)
    requires a.Valid()
    ensures yes == FullEnough(a)
  {
    if a.used == 0 {
      return false;
    } else if a.used == 1 {
      return true;
    }
    var ix, iy := 0, 0;
    while ix < a.used
      invariant ix <= a.used && iy == CountFull(a.dp, ix)
    {
      if a.dp[ix] == BASE - 1 {
        iy := iy + 1;
      }
      ix := ix + 1;
    }
    return iy >= a.used / 2;
  }

  ghost predicate AllFullAbove(s: seq<nat>, n: nat)
    requires n <= |s|
  {
    n >= 2 && forall k :: 1 <= k < n ==> s[k] == BASE - 1
  }

  /** mp_dr_is_modulus */
  method DrIsModulus(a: MpInt) returns (yes: bool)
    requires a.Valid()
    ensures yes == AllFullAbove(a.dp, a.used)
  {
    if a.used < 2 {
      return false;
    }
    var ix := 1;
    while ix < a.used
      invariant 1 <= ix <= a.used && forall k :: 1 <= k < ix ==> a.dp[k] == BASE - 1
    {
      if a.dp[ix] != BASE - 1 {
        return false;
      }
      ix := ix + 1;
    }
    return true;
  }

  lemma {:induction false} CountFullRun(s: seq<nat>, m: nat, n: nat)
    requires 1 <= m <= n <= |s| && forall k :: 1 <= k < m ==> s[k] == BASE - 1
    ensures CountFull(s, n) >= m - 1
    decreases n
  {
    if m < n {
      CountFullRun(s, m, n - 1);
    } else if m > 1 {
      CountFullRun(s, m - 1, n - 1);
    }
  }

  /** The diminished-radix branch of mp_exptmod cannot be reached: those moduli were taken before. */
  lemma DiminishedRadixIsFull(a: MpInt)
    requires a.Valid() && AllFullAbove(a.dp, a.used)
    ensures FullEnough(a)
  {
    CountFullRun(a.dp, a.used, a.used);
  }

  /** All bits above the lowest digit are set. */
  ghost predicate OnesAbove(m: nat) {
    BitCount(m) >= DIGIT_BIT && m / BASE == Pow2(BitCount(m) - DIGIT_BIT) - 1
  }

  /** A bit of the number above the lowest digit is a bit of the digit it falls into. */
  lemma BitAbove(s: seq<nat>, n: nat, iw: nat, r: nat)
    requires 1 <= iw < n <= |s| && Digits(s, n) && r < DIGIT_BIT
    ensures (Val(s, 1, n) / Pow2(DIGIT_BIT * (iw - 1) + r)) % 2 == (s[iw] / Pow2(r)) % 2
  {
    ValSplit(s, 1, iw, n);
    ValBound(s, 1, iw);
    WIsPow2(iw - 1);
    Pow2Add(DIGIT_BIT * (iw - 1), r);
    var h, t: nat := Val(s, 1, n), Val(s, iw, n);
    QuotientOf(h, Val(s, 1, iw), W(iw - 1), t);
    DivDiv(h, W(iw - 1), Pow2(r));
    Pow2Digit();
    Pow2Add(r, DIGIT_BIT - r);
    assert Pow2(DIGIT_BIT - r) == 2 * Pow2(DIGIT_BIT - r - 1);
    ParityAt(t, s[iw], Val(s, iw + 1, n), Pow2(r), Pow2(DIGIT_BIT - r - 1));
  }

  lemma ParityAt(t: nat, d: nat, hi: nat, p: nat, q: nat)
    requires p > 0 && p * (2 * q) == BASE && t == d + BASE * hi
    ensures (t / p) % 2 == (d / p) % 2
  {
    DivMod(d, p);
    MultipleOf(p, q, hi);
    Distribute(d / p, 2 * (q * hi), p);
    DivUnique(t, p, d / p + 2 * (q * hi), d % p);
  }

  lemma MultipleOf(p: nat, q: nat, hi: nat)
    requires p * (2 * q) == BASE
    ensures BASE * hi == (2 * (q * hi)) * p
  {
    assert (2 * (q * hi)) * p == (p * (2 * q)) * hi;
  }

  /** The next bit extends, or breaks, a run of ones. */
  lemma RunOfOnes(h: nat, j: nat)
    requires h % Pow2(j) == Pow2(j) - 1
    ensures (h / Pow2(j)) % 2 == 1 ==> h % Pow2(j + 1) == Pow2(j + 1) - 1
    ensures (h / Pow2(j)) % 2 == 0 ==> forall m: nat :: m > j ==> h != Pow2(m) - 1
  {
    var p := Pow2(j);
    DivMod(h, p);
    var y, x := (h / p) % 2, h / p / 2;
    assert h == x * (2 * p) + (y * p + (p - 1));
    assert y * p == if y == 1 then p else 0;
    DivUnique(h, 2 * p, x, y * p + (p - 1));
    if y == 0 {
      forall m: nat | m > j ensures h != Pow2(m) - 1 {
        Pow2Add(j + 1, m - (j + 1));
        NotAllOnes(h, x, p, Pow2(m - (j + 1)));
      }
    }
  }

  lemma NotAllOnes(h: nat, x: int, p: nat, c: nat)
    requires p > 0 && c > 0 && h == x * (2 * p) + (p - 1)
    ensures h != (2 * p) * c - 1
  {
    if h == (2 * p) * c - 1 {
      DivUnique(h, 2 * p, x, p - 1);
      DivUnique(h, 2 * p, c - 1, 2 * p - 1);
    }
  }

  /** mp_reduce_is_2k, on at least two digits: every bit from the second digit up is set. */
  method Is2k(a: MpInt) returns (yes: bool)
    requires a.Valid()
    ensures yes == (a.used == 1 || (a.used > 1 && OnesAbove(a.Mag())))
  {
    if a.used == 0 {
      return false;
    } else if a.used == 1 {
      return true;
    }
    MagBounds(a);
    var iy := CountBits(a);
    BitCountIs(a.Mag(), iy);
    yes := OnesLoop(a.dp, a.used, iy, a.Mag());
  }

  /** The bit loop of mp_reduce_is_2k. */
  method OnesLoop(s: seq<nat>, n: nat, iy: nat, ghost m: nat) returns (yes: bool)
    requires 1 < n <= |s| && Digits(s, n) && m == Val(s, 0, n) && m < Pow2(iy)
    requires DIGIT_BIT * (n - 1) < iy <= DIGIT_BIT * n
    ensures yes == (m / BASE == Pow2(iy - DIGIT_BIT) - 1)
  {
    ghost var h: nat := Val(s, 1, n);
    HighPart(s, n, iy, m);
    var ix, iw: nat, iz: nat := DIGIT_BIT, 1, 1;
    assert Pow2(0) == 1 && h % 1 == 0;
    while ix < iy
      invariant DIGIT_BIT <= ix <= iy && iw == ix / DIGIT_BIT && iz == Pow2(ix % DIGIT_BIT)
      invariant h % Pow2(ix - DIGIT_BIT) == Pow2(ix - DIGIT_BIT) - 1
    {
      BitAbove(s, n, iw, ix % DIGIT_BIT);
      RunOfOnes(h, ix - DIGIT_BIT);
      if (s[iw] / iz) % 2 == 0 {
        return false;
      }
      NextMask(ix);
      iz := iz * 2;
      if iz > BASE - 1 {
        iw := iw + 1;
        iz := 1;
      }
      ix := ix + 1;
    }
    DivUnique(h, Pow2(iy - DIGIT_BIT), 0, h);
    return true;
  }

  lemma HighPart(s: seq<nat>, n: nat, iy: nat, m: nat)
    requires 1 < n <= |s| && Digits(s, n) && m == Val(s, 0, n) && m < Pow2(iy) && iy > DIGIT_BIT
    ensures m / BASE == Val(s, 1, n) < Pow2(iy - DIGIT_BIT)
  {
    QuotientOf(m, s[0], BASE, Val(s, 1, n));
    Pow2Digit();
    Pow2Add(iy - DIGIT_BIT, DIGIT_BIT);
    MulCancelLess(Val(s, 1, n), Pow2(iy - DIGIT_BIT), BASE);
  }

  lemma NextMask(ix: nat)
    ensures 2 * Pow2(ix % DIGIT_BIT) > BASE - 1 <==> ix % DIGIT_BIT == DIGIT_BIT - 1
    ensures ix % DIGIT_BIT == DIGIT_BIT - 1 ==> (ix + 1) / DIGIT_BIT == ix / DIGIT_BIT + 1 && (ix + 1) % DIGIT_BIT == 0
    ensures ix % DIGIT_BIT != DIGIT_BIT - 1 ==>
              (ix + 1) / DIGIT_BIT == ix / DIGIT_BIT && (ix + 1) % DIGIT_BIT == ix % DIGIT_BIT + 1
  {
    var r := ix % DIGIT_BIT;
    Pow2Digit();
    assert 2 * Pow2(r) == Pow2(r + 1);
    if r < DIGIT_BIT - 1 {
      Pow2Mono(r + 1, DIGIT_BIT - 1);
      assert Pow2(DIGIT_BIT) == 2 * Pow2(DIGIT_BIT - 1);
    }
  }

  // ----- where mp_reduce_2k is used, and whether it works there

  /** Ones all the way up fill every digit but the top one. */
  lemma {:induction false} OnesFillDigits(s: seq<nat>, lo: nat, hi: nat, t: nat)
    requires lo < hi <= |s| && Digits(s, hi) && Val(s, lo, hi) == Pow2(t) - 1 && t > DIGIT_BIT * (hi - 1 - lo)
    ensures forall k :: lo <= k < hi - 1 ==> s[k] == BASE - 1
    ensures s[hi - 1] == Pow2(t - DIGIT_BIT * (hi - 1 - lo)) - 1
    decreases hi - lo
  {
    if lo + 1 < hi {
      Pow2Digit();
      Pow2Add(DIGIT_BIT, t - DIGIT_BIT);
      LowestFull(Val(s, lo, hi), s[lo], Val(s, lo + 1, hi), Pow2(t - DIGIT_BIT));
      OnesFillDigits(s, lo + 1, hi, t - DIGIT_BIT);
    }
  }

  lemma LowestFull(v: nat, d: nat, rest: nat, p: nat)
    requires v == d + BASE * rest && d < BASE && p > 0 && v == BASE * p - 1
    ensures d == BASE - 1 && rest == p - 1
  {
    DivUnique(v, BASE, rest, d);
    DivUnique(v, BASE, p - 1, BASE - 1);
  }

  /** The moduli for which mp_exptmod takes a reduction constant that is wrong. */
  predicate BadModulus(n: nat) {
    exists j: nat :: 2 <= j < DIGIT_BIT && n == (Pow2(j) - 1) * BASE
  }

  /**
   A modulus that is not mostly ones, but has only ones above its lowest digit, has two digits; the constant of
   mp_reduce_2k_setup is right for it unless its lowest digit is zero and its top digit is not one.
   */
  lemma DigitFoldApplies(P: MpInt)
    requires P.Valid() && P.used >= 2 && !FullEnough(P) && OnesAbove(P.Mag())
    ensures P.used == 2 && (BadModulus(P.Mag()) || FoldReduction.FitsDigit(P.Mag()))
  {
    var m, t := P.Mag(), BitCount(P.Mag()) - DIGIT_BIT;
    MagBounds(P);
    TopBitAbove(P, t);
    QuotientOf(m, P.dp[0], BASE, Val(P.dp, 1, P.used));
    OnesFillDigits(P.dp, 1, P.used, t);
    if P.used > 2 {
      CountFullRun(P.dp, P.used - 1, P.used);
    } else {
      TwoDigitModulus(P, t);
    }
  }

  lemma TopBitAbove(P: MpInt, t: int)
    requires P.Valid() && P.used >= 2 && P.Mag() > 0 && t == BitCount(P.Mag()) - DIGIT_BIT
    ensures t > DIGIT_BIT * (P.used - 2)
  {
    MagBounds(P);
    BitCountBounds(P.Mag());
    WIsPow2(P.used - 1);
    var b := BitCount(P.Mag());
    if b <= DIGIT_BIT * (P.used - 1) {
      Pow2Mono(b, DIGIT_BIT * (P.used - 1));
    }
  }

  lemma TwoDigitModulus(P: MpInt, j: nat)
    requires P.Valid() && P.used == 2 && !FullEnough(P) && j > 0 && P.dp[1] == Pow2(j) - 1
    requires BitCount(P.Mag()) == DIGIT_BIT + j
    ensures BadModulus(P.Mag()) || FoldReduction.FitsDigit(P.Mag())
  {
    TopNotFull(P);
    TwoDigitValue(P);
    Pow2Digit();
    if j >= DIGIT_BIT {
      Pow2Mono(DIGIT_BIT, j);
    }
    Pow2Add(DIGIT_BIT, j);
    if P.dp[0] == 0 && j >= 2 {
      BadWhen(P.Mag(), Pow2(j), j);
    } else {
      TwoDigitFits(P.Mag(), P.dp[0], Pow2(j), j, Pow2(DIGIT_BIT + j));
    }
  }

  lemma TwoDigitValue(P: MpInt)
    requires P.Valid() && P.used == 2
    ensures P.Mag() == P.dp[0] + BASE * P.dp[1] > 0
  {
    assert Val(P.dp, 1, 2) == P.dp[1] + BASE * Val(P.dp, 2, 2);
    MagBounds(P);
  }

  lemma BadWhen(n: nat, p: nat, j: nat)
    requires 2 <= j < DIGIT_BIT && p == Pow2(j) && n == BASE * (p - 1)
    ensures BadModulus(n)
  {
    assert n == (Pow2(j) - 1) * BASE;
  }

  lemma TopNotFull(P: MpInt)
    requires P.Valid() && P.used == 2 && !FullEnough(P)
    ensures P.dp[1] != BASE - 1
  {
    assert CountFull(P.dp, 2) == CountFull(P.dp, 1) + if P.dp[1] == BASE - 1 then 1 else 0;
  }

  lemma TwoDigitFits(m: nat, d: nat, p: nat, j: nat, pw: nat)
    requires d < BASE && m == d + BASE * (p - 1) > 0 && pw == BASE * p && p == Pow2(j) && (d > 0 || j <= 1)
    ensures pw % m == ((pw - m) % BASE) % m
  {
    assert Pow2(1) == 2 * Pow2(0);
    if d > 0 {
      FoldReduction.Distance(pw, m);
    } else {
      DivUnique(pw, m, 2, 0);
    }
  }

  // ----- mp_exptmod

  /** The four ways mp_exptmod can take. */
  datatype Route = LongFold | DigitFold | MontgomeryForm | BarrettForm

  ghost function RouteOf(P: MpInt): Route
    requires P.used <= |P.dp|
    reads P
  {
    if FullEnough(P) then LongFold
    else if P.used > 1 && OnesAbove(P.Mag()) then DigitFold
    else if P.Mag() % 2 == 1 then MontgomeryForm else BarrettForm
  }

  /** What mp_exptmod gives on each of them, for a modulus n, the constant rho and unwritten words ws. */
  function Outcome(way: Route, g: int, x: nat, n: nat, rho: nat, ws: Words): nat
    requires n > 0
  {
    match way
    case LongFold => PowerModulo(g, x, n)
    case DigitFold => FoldPower(g, x, n)
    case MontgomeryForm => FastPower(g, x, n, rho, ws)
    case BarrettForm => PowerModulo(g, x, n)
  }

  /** The modulus is one for which every power comes out right. */
  ghost predicate Reliable(P: MpInt)
    requires P.used <= |P.dp|
    reads P
  {
    !BadModulus(P.Mag()) && (RouteOf(P) == MontgomeryForm ==> P.used <= Montgomery.MAX_MODULUS)
  }

  /** The moduli whose powers are right for every base, every exponent and every content of the local array. */
  lemma ReliableIff(P: MpInt, rho: nat)
    requires P.Valid() && !P.neg && P.Mag() > 0 && (RouteOf(P) == MontgomeryForm ==> OddModulus(P.Mag(), rho))
    ensures (forall g: int, x: nat, ws: Words :: DigitWords(ws) ==>
               Outcome(RouteOf(P), g, x, P.Mag(), rho, ws) == PowerModulo(g, x, P.Mag())) <==> Reliable(P)
  {
    var n := P.Mag();
    MagBounds(P);
    DigitCounts.UsedIsNumDigits(P);
    match RouteOf(P)
    case LongFold =>
      FullNotBad(P);
    case DigitFold =>
      SmallModulus(P);
      DigitFoldApplies(P);
      FoldReliable(n, rho);
    case MontgomeryForm =>
      OddNotBad(n);
      MontgomeryReliable(n, rho);
    case BarrettForm =>
      NotFolded(P);
  }

  lemma NotFolded(P: MpInt)
    requires P.Valid() && P.Mag() > 0 && RouteOf(P) == BarrettForm
    ensures !BadModulus(P.Mag())
  {
    SmallModulus(P);
    MagBounds(P);
    BadIsFolded(P.Mag());
  }

  lemma FoldReliable(n: nat, rho: nat)
    requires n > 1 && (BadModulus(n) || FoldReduction.FitsDigit(n))
    ensures (forall g: int, x: nat, ws: Words :: DigitWords(ws) ==>
               Outcome(DigitFold, g, x, n, rho, ws) == PowerModulo(g, x, n)) <==> !BadModulus(n)
  {
    if BadModulus(n) {
      var j: nat :| 2 <= j < DIGIT_BIT && n == (Pow2(j) - 1) * BASE;
      BadModulusPower(n, j);
      assert Outcome(DigitFold, 2, j + DIGIT_BIT, n, rho, AllWords(0)) != PowerModulo(2, j + DIGIT_BIT, n);
      assert DigitWords(AllWords(0));
    } else {
      forall g: int, x: nat ensures FoldPower(g, x, n) == PowerModulo(g, x, n) {
        FoldPowerRight(g, x, n);
      }
    }
  }

  lemma MontgomeryReliable(n: nat, rho: nat)
    requires OddModulus(n, rho)
    ensures (forall g: int, x: nat, ws: Words :: DigitWords(ws) ==>
               Outcome(MontgomeryForm, g, x, n, rho, ws) == PowerModulo(g, x, n))
            <==> ToomThree.Size(n) <= Montgomery.MAX_MODULUS
  {
    AlwaysRightIff(n, rho);
    if forall g: int, x: nat, ws: Words :: DigitWords(ws) ==>
         Outcome(MontgomeryForm, g, x, n, rho, ws) == PowerModulo(g, x, n) {
      forall g: int, x: nat, ws: Words | DigitWords(ws) ensures FastPower(g, x, n, rho, ws) == Pow(g, x) % n {
        assert Outcome(MontgomeryForm, g, x, n, rho, ws) == PowerModulo(g, x, n);
      }
    }
  }

  /** Where the words count, they are digits, and those that are counted are zero. */
  ghost predicate Unheard(g: int, x: nat, n: nat, rho: nat, ws: Words) {
    n > 0 && ToomThree.Size(n) > Montgomery.MAX_MODULUS ==> DigitWords(ws) && QuietPower(g, x, n, rho, ws)
  }

  /** No counted word disturbs the machine, and its first cell is the one for g. */
  ghost predicate Undisturbed(way: Route, g: int, x: nat, n: nat, rho: nat, ws: Words) {
    way == MontgomeryForm && n > 0 ==> FirstRight(g, n) && Unheard(g, x, n, rho, ws)
  }

  /** Nothing disturbs the powers modulo a number of at most 255 digits. */
  lemma ShortUndisturbed(way: Route, g: int, x: nat, n: nat, rho: nat, ws: Words)
    requires way == MontgomeryForm ==> ToomThree.Size(n) <= Montgomery.MAX_MODULUS
    ensures Undisturbed(way, g, x, n, rho, ws)
  {
    if n > 0 && way == MontgomeryForm {
      FirstIsRight(g, n);
    }
  }

  /** The outcome is the power if nothing disturbs the machine and the fold constant fits. */
  lemma OutcomeIsPower(way: Route, g: int, x: nat, n: nat, rho: nat, ws: Words)
    requires n > 0 && Undisturbed(way, g, x, n, rho, ws)
    requires (way == DigitFold ==> FoldReduction.FitsDigit(n)) && (way == MontgomeryForm ==> OddModulus(n, rho))
    ensures Outcome(way, g, x, n, rho, ws) == PowerModulo(g, x, n)
  {
    if way == DigitFold {
      FoldPowerRight(g, x, n);
    } else if way == MontgomeryForm {
      if ToomThree.Size(n) <= Montgomery.MAX_MODULUS {
        ShortIsQuiet(g, x, n, rho, ws);
      }
      FastPowerRight(g, x, n, rho, ws);
    }
  }

  lemma FitsWhere(P: MpInt)
    requires P.Valid() && !P.neg && P.Mag() > 0 && RouteOf(P) == DigitFold && !BadModulus(P.Mag())
    ensures FoldReduction.FitsDigit(P.Mag())
  {
    SmallModulus(P);
    DigitFoldApplies(P);
  }

  /**
   The part of mp_exptmod after the exponent is known not to be negative: the outcome of the way that the modulus takes.
   If nothing disturbs the machine it is the power, except for the moduli with a wrong fold constant; so it is for all
   reliable moduli.
   */
  method ExptmodPositive(G: MpInt, X: MpInt, P: MpInt, Y: MpInt, ws: Words) returns (ok: bool, ghost rho: nat)
    requires G.Valid() && X.Valid() && P.Valid() && !P.neg && Y.Valid()
    modifies Y
    ensures ok == (old(P.Mag()) != 0) && Y.Valid() && (ok ==> !Y.neg)
    ensures ok ==> LowAmong(Y, ws) && (old(RouteOf(P)) != BarrettForm ==> ZeroReads(Y))
    ensures ok && old(RouteOf(P)) == MontgomeryForm ==> OddModulus(old(P.Mag()), rho)
    ensures ok && (old(RouteOf(P)) == MontgomeryForm && old(P.used) > Montgomery.MAX_MODULUS ==> DigitWords(ws)) ==>
              Y.Mag() == Outcome(old(RouteOf(P)), old(G.Value()), old(X.Mag()), old(P.Mag()), rho, ws)
    ensures ok && !BadModulus(old(P.Mag()))
            && Undisturbed(old(RouteOf(P)), old(G.Value()), old(X.Mag()), old(P.Mag()), rho, ws) ==>
              Y.Mag() == PowerModulo(old(G.Value()), old(X.Mag()), old(P.Mag()))
    ensures ok && old(Reliable(P)) ==> Y.Mag() == PowerModulo(old(G.Value()), old(X.Mag()), old(P.Mag()))
  {
    ghost var way, g, x, n := RouteOf(P), G.Value(), X.Mag(), P.Mag();
    ghost var short := P.used <= Montgomery.MAX_MODULUS;
    DigitCounts.UsedIsNumDigits(P);
    if n > 0 && way == DigitFold && !BadModulus(n) {
      FitsWhere(P);
    }
    ok, rho := TakeRoute(G, X, P, Y, ws);
    if ok && way == MontgomeryForm ==> short {
      ShortUndisturbed(way, g, x, n, rho, ws);
    }
    if ok && !BadModulus(n) && Undisturbed(way, g, x, n, rho, ws) {
      OutcomeIsPower(way, g, x, n, rho, ws);
    }
  }

  /** The choice of the exponentiator by the form of the modulus. */
  method TakeRoute(G: MpInt, X: MpInt, P: MpInt, Y: MpInt, ws: Words) returns (ok: bool, ghost rho: nat)
    requires G.Valid() && X.Valid() && P.Valid() && !P.neg && Y.Valid()
    modifies Y
    ensures ok == (old(P.Mag()) != 0) && Y.Valid() && (ok ==> !Y.neg)
    ensures ok ==> LowAmong(Y, ws) && (old(RouteOf(P)) != BarrettForm ==> ZeroReads(Y))
    ensures ok && old(RouteOf(P)) == MontgomeryForm ==> OddModulus(old(P.Mag()), rho)
    ensures ok && (old(RouteOf(P)) == MontgomeryForm && old(P.used) > Montgomery.MAX_MODULUS ==> DigitWords(ws)) ==>
              Y.Mag() == Outcome(old(RouteOf(P)), old(G.Value()), old(X.Mag()), old(P.Mag()), rho, ws)
  {
    MagBounds(P);
    rho := 0;
    var full := Is2kL(P);
    if full {
      ExptmodFoldLong(G, X, P, Y, ws);
      return true, rho;
    }
    SmallModulus(P);
    var dr := DrIsModulus(P);
    if dr {
      DiminishedRadixIsFull(P);
      assert false;
    }
    var twoK := Is2k(P);
    var odd := IsOdd(P);
    if odd || twoK {
      if twoK {
        ExptmodFoldDigit(G, X, P, Y, ws);
        ok := true;
      } else {
        ok, rho := ExptmodMontgomery(G, X, P, Y, ws);
      }
    } else {
      ok := ExptmodBarrett(G, X, P, Y, ws);
    }
  }

  lemma OddNotBad(n: nat)
    requires n % 2 == 1
    ensures !BadModulus(n)
  {
    forall j: nat | 2 <= j < DIGIT_BIT ensures n != (Pow2(j) - 1) * BASE {
      Pow2Mono(2, j);
      DivUnique((Pow2(j) - 1) * BASE, 2, (Pow2(j) - 1) * (BASE / 2), 0);
    }
  }

  /** The moduli with a wrong constant have a zero digit below a top digit of j ones. */
  lemma BadDigits(P: MpInt, j: nat)
    requires P.Valid() && 2 <= j < DIGIT_BIT && P.Mag() == (Pow2(j) - 1) * BASE
    ensures P.used == 2 && P.dp[0] == 0 && P.dp[1] == Pow2(j) - 1 < BASE - 1
  {
    Pow2Mono(2, j);
    assert Pow2(2) == 4;
    Pow2Digit();
    Pow2Mono(j, DIGIT_BIT - 1);
    assert Pow2(DIGIT_BIT) == 2 * Pow2(DIGIT_BIT - 1);
    assert W(1) == BASE * W(0) && W(2) == BASE * W(1);
    UsedBelow(P, 1);
    UsedBelow(P, 2);
    assert Val(P.dp, 1, 2) == P.dp[1];
    LowestFullOf(P.Mag(), P.dp[0], P.dp[1], Pow2(j) - 1);
  }

  lemma LowestFullOf(v: nat, d: nat, rest: nat, q: nat)
    requires v == d + BASE * rest && d < BASE && v == q * BASE
    ensures d == 0 && rest == q
  {
    DivUnique(v, BASE, rest, d);
    DivUnique(v, BASE, q, 0);
  }

  lemma BadNotFull(P: MpInt, j: nat)
    requires P.Valid() && 2 <= j < DIGIT_BIT && P.Mag() == (Pow2(j) - 1) * BASE
    ensures !FullEnough(P)
  {
    BadDigits(P, j);
    assert CountFull(P.dp, 2) == CountFull(P.dp, 1) + 0 && CountFull(P.dp, 1) == CountFull(P.dp, 0) + 0;
  }

  lemma FullNotBad(P: MpInt)
    requires P.Valid() && FullEnough(P)
    ensures !BadModulus(P.Mag())
  {
    forall j: nat | 2 <= j < DIGIT_BIT ensures P.Mag() != (Pow2(j) - 1) * BASE {
      if P.Mag() == (Pow2(j) - 1) * BASE {
        BadNotFull(P, j);
      }
    }
  }

  /** They pass the test for a power of two less a digit. */
  lemma BadHasOnes(n: nat, j: nat)
    requires 2 <= j < DIGIT_BIT && n == (Pow2(j) - 1) * BASE
    ensures OnesAbove(n)
  {
    BitCountOf(n, j);
    DivUnique(n, BASE, Pow2(j) - 1, 0);
  }

  lemma BadIsFolded(n: nat)
    requires !OnesAbove(n)
    ensures !BadModulus(n)
  {
    forall j: nat | 2 <= j < DIGIT_BIT ensures n != (Pow2(j) - 1) * BASE {
      if n == (Pow2(j) - 1) * BASE {
        BadHasOnes(n, j);
      }
    }
  }

  lemma SmallModulus(P: MpInt)
    requires P.Valid() && !FullEnough(P)
    ensures P.used != 1 && P.Mag() != 1
  {
    MagBounds(P);
    if P.used > 1 {
      WMono(1, P.used - 1);
      assert W(1) == BASE * W(0);
    }
  }

  lemma {:induction false} PowProduct(a: int, b: int, n: nat)
    ensures Pow(a * b, n) == Pow(a, n) * Pow(b, n)
  {
    if n > 0 {
      PowProduct(a, b, n - 1);
      PairUp(a, b, Pow(a, n - 1), Pow(b, n - 1));
    }
  }

  lemma {:induction false} PowOne(n: nat)
    ensures Pow(1, n) == 1
  {
    if n > 0 {
      PowOne(n - 1);
    }
  }

  /** The power of an inverse inverts the power. */
  lemma InversePower(g: int, h: int, n: nat, p: nat, y: nat, sign: int)
    requires p > 0 && (g * h) % p == sign % p && y == Pow(h, n) % p
    ensures (Pow(g, n) * y) % p == Pow(sign, n) % p
  {
    PowProduct(g, h, n);
    PowCongruence(g * h, sign, n, p);
    RemainderIs(Pow(h, n), p);
    ProductCongruence(Pow(g, n), Pow(g, n), y, Pow(h, n), p);
  }

  /** What an inverse of the base is worth when fast_mp_invmod supplied it. */
  function InverseSign(g: int, p: int): int {
    if p % 2 == 1 && g < 0 then -1 else 1
  }

  /** y times the n-th power of g is one modulo p, up to that sign. */
  ghost predicate InvertsPower(g: int, n: nat, y: int, p: nat)
    requires p > 0
  {
    (Pow(g, n) * y) % p == Pow(InverseSign(g, p), n) % p
  }

  /** With a sign that is not spoiled, y is the inverse of the power. */
  lemma UnspoiledInverse(g: int, n: nat, y: int, p: nat)
    requires p > 0 && InvertsPower(g, n, y, p) && (g >= 0 || p % 2 == 0)
    ensures (Pow(g, n) * y) % p == 1 % p
  {
    PowOne(n);
  }

  /**
   mp_exptmod.  For X >= 0 it is G^X mod P, see ExptmodPositive; for X < 0 it is the same power of what mp_invmod gives
   for G, and its product with G^|X| is one modulo P, up to the sign that fast_mp_invmod spoils: NegativePower.  `base`
   is G, or that inverse.  False is MP_VAL: a modulus that is not positive, or a negative exponent and no inverse.
   */
  method Exptmod(G: MpInt, X: MpInt, P: MpInt, Y: MpInt, ws: Words) returns (ok: bool, ghost base: int, ghost rho: nat)
    requires G.Valid() && X.Valid() && P.Valid() && Y.Valid()
    requires X.Value() < 0 && P.Value() > 0 && P.Value() % 2 == 1 ==> G.Value() % P.Value() != 0
    modifies Y
    ensures Y.Valid() && (ok ==> !Y.neg)
    ensures ok ==> LowAmong(Y, ws) && (old(RouteOf(P)) != BarrettForm ==> ZeroReads(Y))
    ensures ok == (old(P.Value()) > 0
                   && (old(X.Value()) >= 0 || Divisors.Gcd(Abs(old(G.Value())), old(P.Value())) == 1
                       || TakesZero(old(G.Value()), old(P.Value()))))
    ensures old(X.Value()) >= 0 ==> base == old(G.Value())
    ensures ok && old(X.Value()) < 0 ==> InverseFor(old(G.Value()), base, old(P.Mag()))
    ensures ok && old(RouteOf(P)) == MontgomeryForm ==> OddModulus(old(P.Mag()), rho)
    ensures ok && (old(RouteOf(P)) == MontgomeryForm && old(P.used) > Montgomery.MAX_MODULUS ==> DigitWords(ws)) ==>
              Y.Mag() == Outcome(old(RouteOf(P)), base, old(X.Mag()), old(P.Mag()), rho, ws)
    ensures ok && !BadModulus(old(P.Mag()))
            && Undisturbed(old(RouteOf(P)), base, old(X.Mag()), old(P.Mag()), rho, ws) ==>
              Y.Mag() == PowerModulo(base, old(X.Mag()), old(P.Mag()))
    ensures ok && old(Reliable(P)) ==> Y.Mag() == PowerModulo(base, old(X.Mag()), old(P.Mag()))
  {
    MagBounds(P);
    MagBounds(X);
    base, rho := G.Value(), 0;
    if P.neg {
      return false, base, rho;
    }
    if X.neg {
      ok, base, rho := ExptmodNegative(G, X, P, Y, ws);
    } else {
      ok, rho := ExptmodPositive(G, X, P, Y, ws);
    }
  }

  /** What mp_invmod gives for g, when the two are coprime. */
  ghost predicate InverseFor(g: int, h: int, p: nat) {
    && (p > 0 && Divisors.Gcd(Abs(g), p) == 1 ==> (g * h) % p == InverseSign(g, p) % p)
    && (g >= 0 ==> h >= 0)
  }

  /** "first compute 1/G mod P", "now get |X|" and the recursive call. */
  method ExptmodNegative(G: MpInt, X: MpInt, P: MpInt, Y: MpInt, ws: Words)
    returns (ok: bool, ghost base: int, ghost rho: nat)
    requires G.Valid() && X.Valid() && P.Valid() && !P.neg && Y.Valid() && X.Value() < 0
    requires P.Value() > 0 && P.Value() % 2 == 1 ==> G.Value() % P.Value() != 0
    modifies Y
    ensures Y.Valid() && (ok ==> !Y.neg)
    ensures ok ==> LowAmong(Y, ws) && (old(RouteOf(P)) != BarrettForm ==> ZeroReads(Y))
    ensures ok == (old(P.Value()) > 0 && (Divisors.Gcd(Abs(old(G.Value())), old(P.Value())) == 1
                                          || TakesZero(old(G.Value()), old(P.Value()))))
    ensures ok ==> InverseFor(old(G.Value()), base, old(P.Mag()))
    ensures ok && old(RouteOf(P)) == MontgomeryForm ==> OddModulus(old(P.Mag()), rho)
    ensures ok && (old(RouteOf(P)) == MontgomeryForm && old(P.used) > Montgomery.MAX_MODULUS ==> DigitWords(ws)) ==>
              Y.Mag() == Outcome(old(RouteOf(P)), base, old(X.Mag()), old(P.Mag()), rho, ws)
    ensures ok && !BadModulus(old(P.Mag()))
            && Undisturbed(old(RouteOf(P)), base, old(X.Mag()), old(P.Mag()), rho, ws) ==>
              Y.Mag() == PowerModulo(base, old(X.Mag()), old(P.Mag()))
    ensures ok && old(Reliable(P)) ==> Y.Mag() == PowerModulo(base, old(X.Mag()), old(P.Mag()))
  {
    MagBounds(X);
    var tmpG := new MpInt();
    ok := Invmod(G, P, tmpG);
    base, rho := tmpG.Value(), 0;
    if !ok {
      return;
    }
    var tmpX := new MpInt();
    GreatestCommonDivisor.AbsInto(X, tmpX);
    ok, rho := ExptmodPositive(tmpG, tmpX, P, Y, ws);
  }

  /** What a negative exponent gives: the power of an inverse inverts the power. */
  lemma NegativePower(g: int, base: int, n: nat, p: nat, y: nat)
    requires p > 0 && n > 0 && Divisors.Gcd(Abs(g), p) == 1 && InverseFor(g, base, p) && y == PowerModulo(base, n, p)
    ensures InvertsPower(g, n, y, p)
    ensures g >= 0 || p % 2 == 0 ==> (Pow(g, n) * y) % p == 1 % p
  {
    InversePower(g, base, n, p, y, InverseSign(g, p));
    if g >= 0 || p % 2 == 0 {
      UnspoiledInverse(g, n, y, p);
    }
  }
}
