/**
 Modular exponentiation: the left-to-right sliding window of HAC 14.85 over any of the library's reductions.

 mp_exptmod_fast and s_mp_exptmod hold the same window machine over different reductions, which the source selects with
 a function pointer; here the machine is written once and the pointer is the value `Redux`.  Every method follows the
 machine on numbers, `PowerMachine.Powered`; what that gives is proved in `PowerLaws`.
 */
module Exponentiation {
  import opened Arith
  import opened Radix
  import opened MpInts
  import opened Bits
  import Congruences
  import opened Montgomery
  import opened Multiply
  import DigitCounts
  import opened Product
  import Squaring
  import Barrett
  import opened FoldReduction
  import Modulo
  import opened PowerMachine
  import opened PowerLaws
  import ToomThree

  const TAB_SIZE: nat := 256

  // ----- the reductions

  /** What "redux" and its last argument are. */
  datatype Redux = MontgomeryRho(rho: nat) | FoldDigit(digit: nat) | BarrettMu(mu: MpInt) | FoldLong(d: MpInt)

  ghost function Refs(red: Redux): set<object> {
    match red
    case BarrettMu(mu) => {mu}
    case FoldLong(d) => {d}
    case MontgomeryRho(_) => {}
    case FoldDigit(_) => {}
  }

  /** The constants belong to the modulus P. */
  ghost predicate Prepared(red: Redux, P: MpInt)
    reads P, Refs(red)
  {
    && P.Valid() && !P.neg && P.Mag() > 0
    && match red
       case MontgomeryRho(rho) => 0 < P.used && Rho(P.dp[0], rho) && P.Mag() > 1
       case FoldDigit(d) => d < BASE && d + P.Mag() <= Pow2(BitCount(P.Mag()))
       case BarrettMu(mu) => mu.Valid() && !mu.neg && mu.Mag() == W(2 * P.used) / P.Mag()
       case FoldLong(d) => d.Valid() && !d.neg && d.Mag() == Pow2(BitCount(P.Mag())) - P.Mag()
  }

  /** The reduction as a function. */
  ghost function Model(red: Redux, P: MpInt): Reduction
    requires Prepared(red, P)
    reads P, Refs(red)
  {
    match red
    case MontgomeryRho(rho) => Redced(P.Mag(), P.used, rho)
    case FoldDigit(d) => Folding(P.Mag(), d, Pow2(BitCount(P.Mag())))
    case BarrettMu(_) => Residue(P.Mag())
    case FoldLong(_) => Residue(P.Mag())
  }

  /** A product of residues. */
  ghost predicate InSquare(x: nat, n: nat) {
    x < Prod(n, n) || (n == 1 && x <= 1)
  }

  /** One call through the pointer. */
  method ReduceBy(x: MpInt, P: MpInt, red: Redux)
    requires Prepared(red, P) && x.Valid() && !x.neg && x != P && x !in Refs(red) && InSquare(x.Mag(), P.Mag())
    requires CountsBuffer(Model(red, P)) ==> Reducible(x, P)
    modifies x
    ensures x.Valid() && !x.neg && x.Mag() < P.Mag()
    ensures !CountsBuffer(Model(red, P)) ==> x.Mag() == Reduced(Model(red, P), old(x.Mag()))
    ensures CountsBuffer(Model(red, P)) ==> x.Clean()
    ensures if red.BarrettMu? then LowKept(x, old(x.used), old(x.dp)) else ZeroReads(x)
    ensures CountsBuffer(Model(red, P)) && old(Digits(x.dp, |x.dp|)) ==>
              x.Mag() == Reduced(Model(red, P), old(Val(x.dp, 0, |x.dp|)))
  {
    MagBounds(P);
    match red
    case MontgomeryRho(rho) =>
      RangeForMontgomery(x.Mag(), P.Mag(), W(P.used));
      MontgomeryReduce(x, P, rho);
    case FoldDigit(d) =>
      Reduce2k(x, P, d);
    case BarrettMu(mu) =>
      BarrettRange(x.Mag(), P.Mag(), P.used);
      DivMod(x.Mag(), P.Mag());
      ghost var rounds := Barrett.Reduce(x, P, mu);
    case FoldLong(d) =>
      DivMod(x.Mag(), P.Mag());
      Reduce2kL(x, P, d);
  }

  lemma BarrettRange(x: nat, n: nat, k: nat)
    requires InSquare(x, n) && 0 < n < W(k)
    ensures x < W(2 * k)
  {
    WAdd(k, k);
    if n > 1 || x < Prod(n, n) {
      ProductBelow(n, W(k), n, W(k));
    } else {
      MulMono(2, W(k), W(k));
    }
  }

  // ----- numbers that follow the machine

  /**
   The reduction, the words that the local array holds, cell 1 and the window size; and whether the numbers are known:
   a word that is no digit may be lost in part by a reduction that counts the buffer; and what the lowest word of a zero
   can be.
   */
  datatype Context = Context(m: Reduction, ws: Words, one: nat, w: nat, exact: bool, low: Lowest)

  /** Anything; zero; or zero and the words that were never written. */
  datatype Lowest = Unknown | Blank | Leftovers

  /** A zero has zero or one of the words as its lowest word. */
  ghost predicate LowAmong(x: MpInt, ws: Words)
    reads x
  {
    ZeroReads(x) || (|x.dp| > 0 && IsWord(ws, x.dp[0]))
  }

  ghost predicate LowestIn(x: MpInt, c: Context)
    reads x
  {
    match c.low
    case Unknown => true
    case Blank => ZeroReads(x)
    case Leftovers => LowAmong(x, c.ws)
  }

  ghost predicate Under(c: Context, red: Redux, P: MpInt)
    reads P, Refs(red)
  {
    && Prepared(red, P) && c.m == Model(red, P) && 2 <= c.w <= 8
    && (c.exact && CountsBuffer(c.m) ==> DigitWords(c.ws)) && (c.low.Blank? ==> !red.BarrettMu?)
  }

  /** x holds v.  Modulo one, the initial result is not reduced. */
  ghost predicate Holds(x: MpInt, v: nat, c: Context)
    reads x
  {
    && x.Valid() && !x.neg && (x.Mag() < c.m.n || (c.m.n == 1 && x.Mag() == 1))
    && (CountsBuffer(c.m) ==> x.Clean()) && (c.exact ==> x.Mag() == v) && LowestIn(x, c)
  }

  lemma ProductInSquare(x: MpInt, v: nat, y: MpInt, u: nat, c: Context)
    requires Holds(x, v, c) && Holds(y, u, c)
    ensures InSquare(Prod(x.Mag(), y.Mag()), c.m.n) && Prod(x.Mag(), y.Mag()) == x.Mag() * y.Mag()
  {
    if x.Mag() == 0 {
      MulZero(y.Mag());
      MulLess(0, c.m.n, c.m.n);
    } else if y.Mag() == 0 {
      MulZero(x.Mag());
      MulLess(0, c.m.n, c.m.n);
    } else if c.m.n > 1 {
      ProductBelow(x.Mag(), c.m.n, y.Mag(), c.m.n);
    }
  }

  /** A clean number is reducible whenever it is in range. */
  lemma CleanReducible(x: MpInt, P: MpInt)
    requires x.Valid() && x.Clean() && P.Valid() && P.used > 0 && x.Mag() < Prod(P.Mag(), P.Mag())
    ensures Reducible(x, P) && Digits(x.dp, |x.dp|) && Val(x.dp, 0, |x.dp|) == x.Mag()
  {
    CleanDigits(x);
    MagBounds(P);
    RangeForMontgomery(x.Mag(), P.Mag(), W(P.used));
  }

  /** "mp_sqr (&res, &res)", "redux (&res, P, mp)" */
  method SquareAndReduce(x: MpInt, P: MpInt, red: Redux, ghost v: nat, ghost c: Context)
    requires Under(c, red, P) && Holds(x, v, c) && x != P && x !in Refs(red)
    modifies x
    ensures Holds(x, ReducedSquare(c.m, v), c)
  {
    ProductInSquare(x, v, x, v, c);
    Squaring.Sqr(x, x);
    if CountsBuffer(c.m) {
      CleanReducible(x, P);
    }
    ReduceBy(x, P, red);
  }

  /** A buffer that holds one word above its digits. */
  lemma LadenValue(z: MpInt, at: nat, word: nat)
    requires z.Proper() && CleanBut(z, at, word) && z.used <= at && (word != 0 ==> at < |z.dp|)
    ensures Val(z.dp, 0, |z.dp|) == z.Mag() + Prod(word, W(at))
    ensures word < BASE ==> Digits(z.dp, |z.dp|)
  {
    if word == 0 {
      CleanDigits(z);
      MulZero(W(at));
    } else {
      var t := z.dp[at := 0];
      ValSet(z.dp, at, 0, 0, |t|);
      ValSame(z.dp, t, 0, z.used);
      ValSplit(t, 0, z.used, |t|);
      ValZeros(t, z.used, |t|);
      MulZero(W(z.used));
      SignedTerm(word, W(at));
    }
  }

  /** The sizes for which the comba product is taken put the word where the reduction can deal with it. */
  lemma LadenReducible(z: MpInt, P: MpInt, na: nat, nb: nat, word: Word)
    requires z.Valid() && P.Valid() && P.used > MAX_MODULUS && na <= P.used && nb <= P.used
    requires z.Mag() < Prod(P.Mag(), P.Mag()) && z.Mag() < W(na + nb) && z.used <= na + nb
    requires CleanBut(z, na + nb, LeftOver(na, nb, word)) && (Comba(na, nb) ==> na + nb < |z.dp|)
    ensures Reducible(z, P)
  {
    var left := LeftOver(na, nb, word);
    if left == 0 {
      CleanReducible(z, P);
    } else {
      LadenCase(z, P, na + nb, left);
    }
  }

  /** With the word at a place that the comba branch can reach. */
  lemma LadenCase(z: MpInt, P: MpInt, at: nat, word: Word)
    requires z.Valid() && P.Valid() && P.used > 0 && z.Mag() < W(at) && z.used <= at && at + 2 < 2 * P.used
    requires CleanBut(z, at, word) && at < |z.dp|
    ensures Reducible(z, P)
  {
    LadenValue(z, at, word);
    MagBounds(P);
    LadenRange(z.Mag(), word, at, P.Mag(), P.used);
  }

  lemma LadenRange(x: nat, word: nat, at: nat, n: nat, k: nat)
    requires x < W(at) && word < DIGIT_WRAP && at + 2 < 2 * k && n >= W(k - 1)
    ensures x + Prod(word, W(at)) < n * (W(k) + 1)
  {
    assert W(at + 2) == BASE * W(at + 1) && W(at + 1) == BASE * W(at);
    WMono(at + 2, 2 * k - 1);
    WAdd(k - 1, k);
    MulMono(W(k - 1), n, W(k));
    WordBelow(x, word, W(at), W(k), n);
  }

  lemma WordBelow(x: nat, word: nat, w: nat, wk: nat, n: nat)
    requires x < w && word < DIGIT_WRAP && BASE * (BASE * w) <= n * wk
    ensures x + word * w < n * (wk + 1)
  {
    MulMono(word, DIGIT_WRAP - 1, w);
    Distribute(wk, 1, n);
  }

  /** mp_mul of numbers that are not negative. */
  method MultiplyInto(x: MpInt, y: MpInt, z: MpInt, word: Word)
    requires x.Valid() && y.Valid() && z.Valid() && !x.neg && !y.neg
    modifies z
    ensures z.Valid() && !z.neg && z.Mag() == Prod(old(x.Mag()), old(y.Mag()))
    ensures Comba(old(x.used), old(y.used)) ==> old(x.used) + old(y.used) < |z.dp|
    ensures old(z.Clean()) ==> CleanBut(z, old(x.used) + old(y.used), LeftOver(old(x.used), old(y.used), word))
    ensures LowIs(z, word)
  {
    MagBounds(x);
    MagBounds(y);
    Mul(x, y, z, word);
    MagBounds(z);
  }

  /** "mp_mul (&x, &y, &z)", "redux (&z, P, mp)" */
  method MultiplyAndReduce(x: MpInt, y: MpInt, z: MpInt, P: MpInt, red: Redux, word: Word, ghost v: nat, ghost u: nat,
                     ghost c: Context)
    requires Under(c, red, P) && Holds(x, v, c) && Holds(y, u, c) && z != P && z !in Refs(red)
    requires z.Valid() && (CountsBuffer(c.m) ==> z.Clean()) && (c.exact && CountsBuffer(c.m) ==> word < BASE)
    requires IsWord(c.ws, word)
    modifies z
    ensures Holds(z, ReducedProduct(c.m, v, u, word), c)
  {
    ProductInSquare(x, v, y, u, c);
    ghost var na, nb := x.used, y.used;
    FactorSizes(x, y, P, c);
    ghost var product := Prod(x.Mag(), y.Mag());
    MultiplyInto(x, y, z, word);
    UsedBelow(z, na + nb);
    ReduceProduct(z, P, red, word, na, nb, product, v, u, c);
  }

  /** The second half of that. */
  method ReduceProduct(z: MpInt, P: MpInt, red: Redux, ghost word: Word, ghost na: nat, ghost nb: nat,
                       ghost product: nat, ghost v: nat, ghost u: nat, ghost c: Context)
    requires Under(c, red, P) && z != P && z !in Refs(red)
    requires z.Valid() && !z.neg && z.Mag() == product && InSquare(product, P.Mag())
    requires na <= P.used && nb <= P.used && product < W(na + nb) && z.used <= na + nb
    requires c.exact ==> na == DigitCounts.NumDigits(v) && nb == DigitCounts.NumDigits(u) && product == Prod(v, u)
    requires CountsBuffer(c.m) ==> CleanBut(z, na + nb, LeftOver(na, nb, word)) && (Comba(na, nb) ==> na + nb < |z.dp|)
    requires (c.exact && CountsBuffer(c.m) ==> word < BASE) && IsWord(c.ws, word) && LowIs(z, word)
    modifies z
    ensures Holds(z, ReducedProduct(c.m, v, u, word), c)
  {
    LadenProduct(z, P, red, na, nb, word, product, v, u, c);
    ReduceBy(z, P, red);
  }

  /** The factors have no more digits than the modulus, and their digit counts are those of their values. */
  lemma FactorSizes(x: MpInt, y: MpInt, P: MpInt, c: Context)
    requires P.Valid() && c.m.n == P.Mag() && x.Valid() && y.Valid() && x.Mag() <= P.Mag() && y.Mag() <= P.Mag()
    ensures x.used <= P.used && y.used <= P.used
    ensures x.used == DigitCounts.NumDigits(x.Mag()) && y.used == DigitCounts.NumDigits(y.Mag())
    ensures Prod(x.Mag(), y.Mag()) < W(x.used + y.used)
  {
    UsedMono(x, P);
    UsedMono(y, P);
    DigitCounts.UsedIsNumDigits(x);
    DigitCounts.UsedIsNumDigits(y);
    ProductDigits(x.dp, x.used, y.dp, y.used);
  }

  /** What the reduction sees after a product is what the machine counts. */
  lemma LadenProduct(z: MpInt, P: MpInt, red: Redux, na: nat, nb: nat, word: Word, product: nat, v: nat, u: nat,
                     c: Context)
    requires Under(c, red, P) && z.Valid() && z.Mag() == product && InSquare(product, P.Mag())
    requires na <= P.used && nb <= P.used && product < W(na + nb) && z.used <= na + nb
    requires c.exact ==> na == DigitCounts.NumDigits(v) && nb == DigitCounts.NumDigits(u) && product == Prod(v, u)
    requires CountsBuffer(c.m) ==> CleanBut(z, na + nb, LeftOver(na, nb, word)) && (Comba(na, nb) ==> na + nb < |z.dp|)
    requires c.exact && CountsBuffer(c.m) ==> word < BASE
    ensures CountsBuffer(c.m) ==> Reducible(z, P)
    ensures CountsBuffer(c.m) && c.exact ==>
              Digits(z.dp, |z.dp|) && Val(z.dp, 0, |z.dp|) == Prod(v, u) + Stale(c.m, v, u, word)
    ensures !CountsBuffer(c.m) && c.exact ==> z.Mag() == Prod(v, u) + Stale(c.m, v, u, word)
  {
    if CountsBuffer(c.m) {
      LadenReducible(z, P, na, nb, word);
      LadenValue(z, na + nb, LeftOver(na, nb, word));
      MulZero(W(na + nb));
    }
  }

  /** "for (x = 0; x < n; x++) square and reduce" */
  method SquareTimes(x: MpInt, n: nat, P: MpInt, red: Redux, ghost v: nat, ghost c: Context)
    requires Under(c, red, P) && Holds(x, v, c) && x != P && x !in Refs(red)
    modifies x
    ensures Holds(x, Squares(c.m, v, n), c)
  {
    var i := 0;
    ghost var now := v;
    while i < n
      invariant i <= n && now == Squares(c.m, v, i) && Under(c, red, P) && Holds(x, now, c)
    {
      SquareAndReduce(x, P, red, now, c);
      now := ReducedSquare(c.m, now);
      i := i + 1;
    }
  }

  // ----- the table

  /** "find window size" */
  method WindowSize(bits: nat) returns (w: nat)
    ensures w == WindowSizeOf(bits)
  {
    w := if bits <= 7 then 2 else if bits <= 36 then 3 else if bits <= 140 then 4 else if bits <= 450 then 5
         else if bits <= 1303 then 6 else if bits <= 3529 then 7 else 8;
  }

  lemma WindowFits(w: nat)
    requires 2 <= w <= 8
    ensures 1 < Pow2(w - 1) < Pow2(w) <= TAB_SIZE
  {
    Pow2Mono(w, 8);
    Pow2Mono(1, w - 1);
    assert Pow2(8) == 256;
  }

  /** What the machine has in cell i. */
  ghost function CellOf(c: Context, i: nat): nat
    requires c.w > 0
  {
    if i == 1 then c.one else CellValue(c.m, c.ws, c.one, c.w, i)
  }

  ghost predicate Cell(M: seq<MpInt?>, i: nat, c: Context)
    reads M
  {
    i < |M| && M[i] != null && c.w > 0 && Holds(M[i], CellOf(c, i), c)
  }

  /** The cells of the table that are ever filled: 1, and lo up to hi. */
  ghost predicate Table(M: seq<MpInt?>, lo: nat, hi: nat, c: Context)
    reads M
  {
    |M| == TAB_SIZE && Cell(M, 1, c) && forall i {:trigger Cell(M, i, c)} :: lo <= i < hi ==> Cell(M, i, c)
  }

  /** The cell after x - 1, in a number of its own. */
  method NextCell(prev: MpInt, one: MpInt, P: MpInt, red: Redux, word: Word, ghost v: nat, ghost c: Context)
    returns (y: MpInt)
    requires Under(c, red, P) && Holds(prev, v, c) && Holds(one, c.one, c)
    requires (c.exact && CountsBuffer(c.m) ==> word < BASE) && IsWord(c.ws, word)
    ensures fresh(y) && Holds(y, ReducedProduct(c.m, v, c.one, word), c)
  {
    y := new MpInt();
    MultiplyAndReduce(prev, one, y, P, red, word, v, c.one, c);
  }

  /** The cell at 2^(w - 1): a copy of cell 1, squared w - 1 times. */
  method MiddleCell(one: MpInt, w: nat, P: MpInt, red: Redux, ghost c: Context) returns (y: MpInt)
    requires Under(c, red, P) && Holds(one, c.one, c) && w > 0
    ensures fresh(y) && Holds(y, Squares(c.m, c.one, w - 1), c)
  {
    y := new MpInt();
    Copy(one, y);
    SquareTimes(y, w - 1, P, red, c.one, c);
  }

  /** "create M table": cell 1 and the upper half; the rest stays null. */
  method FillTable(one: MpInt, w: nat, P: MpInt, red: Redux, ws: Words, ghost c: Context) returns (M: seq<MpInt?>)
    requires Under(c, red, P) && Holds(one, c.one, c) && w == c.w && ws == c.ws
    ensures Table(M, Pow2(w - 1), Pow2(w), c)
    ensures forall i :: 0 <= i < |M| && M[i] != null ==> M[i] == one || fresh(M[i])
    ensures forall i :: 0 <= i < |M| && i != 1 && !(Pow2(w - 1) <= i < Pow2(w)) ==> M[i] == null
  {
    WindowFits(w);
    M := StartTable(one, w, P, red, c);
    M := FillUpper(M, w, P, red, ws, c);
  }

  /** "create upper table" */
  method FillUpper(M0: seq<MpInt?>, w: nat, P: MpInt, red: Redux, ws: Words, ghost c: Context)
    returns (M: seq<MpInt?>)
    requires Under(c, red, P) && w == c.w && ws == c.ws && Table(M0, Pow2(w - 1), Pow2(w - 1) + 1, c)
    ensures Table(M, Pow2(w - 1), Pow2(w), c)
    ensures forall i :: 0 <= i < |M| ==>
              if Pow2(w - 1) < i < Pow2(w) then M[i] != null && fresh(M[i]) else M[i] == M0[i]
  {
    WindowFits(w);
    var lo, hi := Pow2(w - 1), Pow2(w);
    M := M0;
    var x := lo + 1;
    while x < hi
      invariant lo < x <= hi && Under(c, red, P) && Table(M, lo, x, c)
      invariant forall i :: 0 <= i < |M| ==> if lo < i < x then M[i] != null && fresh(M[i]) else M[i] == M0[i]
    {
      M := AddCell(M, lo, x, P, red, ws, c);
      x := x + 1;
    }
  }

  /** Cell 1 and the lowest cell of the upper half. */
  method StartTable(one: MpInt, w: nat, P: MpInt, red: Redux, ghost c: Context) returns (M: seq<MpInt?>)
    requires Under(c, red, P) && Holds(one, c.one, c) && w == c.w
    ensures Table(M, Pow2(w - 1), Pow2(w - 1) + 1, c)
    ensures forall i :: 0 <= i < |M| && M[i] != null ==> M[i] == one || fresh(M[i])
    ensures forall i :: 0 <= i < |M| && i != 1 && i != Pow2(w - 1) ==> M[i] == null
  {
    WindowFits(w);
    var mid := MiddleCell(one, w, P, red, c);
    M := seq(TAB_SIZE, _ => null);
    M := M[1 := one][Pow2(w - 1) := mid];
    assert Cell(M, 1, c) && Cell(M, Pow2(w - 1), c);
  }

  /** One more cell of the upper half. */
  method AddCell(M: seq<MpInt?>, lo: nat, x: nat, P: MpInt, red: Redux, ws: Words, ghost c: Context)
    returns (M': seq<MpInt?>)
    requires Under(c, red, P) && Table(M, lo, x, c) && ws == c.ws && lo == Pow2(c.w - 1) && 1 < lo < x < TAB_SIZE
    ensures Table(M', lo, x + 1, c) && |M'| == |M| && M'[x] != null && fresh(M'[x])
    ensures forall i :: 0 <= i < |M| && i != x ==> M'[i] == M[i]
  {
    assert Cell(M, x - 1, c) && Cell(M, 1, c);
    var y := NextCell(M[x - 1], M[1], P, red, ws.table(x), CellOf(c, x - 1), c);
    M' := M[x := y];
    TableGrows(M, M', lo, x, c);
  }

  lemma TableGrows(M: seq<MpInt?>, M': seq<MpInt?>, lo: nat, x: nat, c: Context)
    requires Table(M, lo, x, c) && 1 < lo < x < |M| && |M'| == |M| && Cell(M', x, c)
    requires forall i :: 0 <= i < |M| && i != x ==> M'[i] == M[i]
    ensures Table(M', lo, x + 1, c)
  {
    assert Cell(M, 1, c) && Cell(M', 1, c);
    forall i {:trigger Cell(M', i, c)} | lo <= i < x + 1 ensures Cell(M', i, c) {
      if i < x {
        assert Cell(M, i, c);
      }
    }
  }

  // ----- reading the exponent

  /**
   bitcnt - 1 bits of digit digidx + 1 are still in the top of buf; pre is the number made of the bits already read,
   rem how many are left of the n digits s.
   */
  ghost predicate Reading(s: seq<nat>, n: nat, buf: nat, bitcnt: int, digidx: int, pre: nat, rem: nat) {
    && n <= |s| && Digits(s, n) && -1 <= digidx < n && 1 <= bitcnt <= DIGIT_BIT
    && rem == DIGIT_BIT * (digidx + 1) + (bitcnt - 1)
    && pre == Val(s, 0, n) / Pow2(rem)
    && (bitcnt > 1 ==> InBuffer(s, n, buf, bitcnt - 1, digidx + 1))
  }

  /** The low r bits of digit d, and nothing else of it, fill buf's 28 bits from the top. */
  ghost predicate InBuffer(s: seq<nat>, n: nat, buf: nat, r: nat, d: nat)
    requires n <= |s|
  {
    d < n && r <= DIGIT_BIT && buf % BASE == s[d] % Pow2(r) * Pow2(DIGIT_BIT - r)
  }

  /** The top bit of the buffer is the next bit of the digit. */
  lemma TopBit(cur: nat, p: nat, q: nat, buf: nat)
    requires p > 0 && q > 0 && 2 * p * q == BASE && cur < 2 * p && buf % BASE == cur * q
    ensures (buf / (BASE / 2)) % 2 == cur / p && cur / p <= 1
    ensures (2 * buf) % BASE == (cur % p) * (2 * q)
  {
    var y, low := cur / p, cur % p;
    DivMod(cur, p);
    if y > 1 {
      MulMono(2, y, p);
    }
    if y < 0 {
      MulMono(y, -1, p);
    }
    assert cur * q == y * (p * q) + low * q by {
      assert (y * p + low) * q == y * (p * q) + low * q;
    }
    MulMono(low + 1, p, q);
    MulMono(0, low, q);
    DoubledBuffer(buf, y, low * q);
  }

  lemma DoubledBuffer(buf: nat, y: int, t: int)
    requires 0 <= y <= 1 && 0 <= t < BASE / 2 && buf % BASE == y * (BASE / 2) + t
    ensures (buf / (BASE / 2)) % 2 == y && (2 * buf) % BASE == 2 * t
  {
    var k := buf / BASE;
    DivMod(buf, BASE);
    DivUnique(buf, BASE / 2, 2 * k + y, t);
    DivUnique(2 * k + y, 2, k, y);
    DivUnique(2 * buf, BASE, 2 * k + y, 2 * t);
  }

  /** One more bit of the exponent is read. */
  lemma PrefixBit(s: seq<nat>, n: nat, d: nat, r: nat)
    requires n <= |s| && Digits(s, n) && d < n && 0 < r <= DIGIT_BIT
    ensures Val(s, 0, n) / Pow2(DIGIT_BIT * d + r - 1) ==
            2 * (Val(s, 0, n) / Pow2(DIGIT_BIT * d + r)) + s[d] % Pow2(r) / Pow2(r - 1)
  {
    ValSplit(s, 0, d, n);
    ValBound(s, 0, d);
    WIsPow2(d);
    Pow2Add(DIGIT_BIT * d, r);
    Pow2Add(DIGIT_BIT * d, r - 1);
    Pow2Add(r, DIGIT_BIT - r);
    Pow2Digit();
    var t, e: int := Val(s, d, n), Val(s, 0, n);
    QuotientOf(e, Val(s, 0, d), W(d), t);
    DivDiv(e, W(d), Pow2(r));
    DivDiv(e, W(d), Pow2(r - 1));
    NextBitOf(t, s[d], Val(s, d + 1, n), Pow2(r - 1), Pow2(DIGIT_BIT - r));
  }

  lemma NextBitOf(t: nat, d: nat, hi: nat, p: nat, q: nat)
    requires p > 0 && 2 * p * q == BASE && t == d + BASE * hi
    ensures t / p == 2 * (t / (2 * p)) + d % (2 * p) / p
  {
    var a, cur := d / (2 * p), d % (2 * p);
    DivMod(d, 2 * p);
    HighMultiple(p, q, hi);
    Distribute(a, q * hi, 2 * p);
    QuotientsOf(t, p, a + q * hi, cur);
  }

  lemma HighMultiple(p: nat, q: nat, hi: nat)
    requires 2 * p * q == BASE
    ensures BASE * hi == (q * hi) * (2 * p)
  {
    assert (q * hi) * (2 * p) == (2 * p * q) * hi;
  }

  /** "grab next digit as required" and "grab the next msb from the exponent". */
  method NextBit(s: seq<nat>, n: nat, buf0: nat, bitcnt0: int, digidx0: int, ghost pre: nat, ghost rem: nat)
    returns (done: bool, y: nat, buf: nat, bitcnt: int, digidx: int, ghost pre': nat, ghost rem': nat)
    requires Reading(s, n, buf0, bitcnt0, digidx0, pre, rem) && buf0 < DIGIT_WRAP
    ensures done <==> rem == 0
    ensures !done ==> y <= 1 && buf < DIGIT_WRAP && pre' == 2 * pre + y && rem' < rem
    ensures !done ==> Reading(s, n, buf, bitcnt, digidx, pre', rem')
  {
    pre', rem' := pre, rem;
    buf, bitcnt, digidx, y := buf0, bitcnt0 - 1, digidx0, 0;
    if bitcnt == 0 {
      if digidx == -1 {
        return true, 0, buf, bitcnt, digidx, pre, rem;
      }
      buf := s[digidx];
      digidx := digidx - 1;
      bitcnt := DIGIT_BIT;
      WholeDigit(s, n, digidx + 1);
    }
    done := false;
    ghost var r: nat, d: nat := bitcnt, digidx + 1;
    PrefixBit(s, n, d, r);
    ShiftOut(s, n, buf, r, d);
    y := (buf / (BASE / 2)) % 2;
    buf := (buf * 2) % DIGIT_WRAP;
    pre', rem' := 2 * pre + y, rem - 1;
  }

  lemma WholeDigit(s: seq<nat>, n: nat, d: nat)
    requires n <= |s| && Digits(s, n) && d < n
    ensures InBuffer(s, n, s[d], DIGIT_BIT, d)
  {
    Pow2Digit();
    assert Pow2(0) == 1;
  }

  lemma ShiftOut(s: seq<nat>, n: nat, buf: nat, r: nat, d: nat)
    requires n <= |s| && 0 < r && InBuffer(s, n, buf, r, d)
    ensures (buf / (BASE / 2)) % 2 == s[d] % Pow2(r) / Pow2(r - 1) <= 1
    ensures InBuffer(s, n, (buf * 2) % DIGIT_WRAP, r - 1, d)
  {
    Pow2Digit();
    Pow2Add(r, DIGIT_BIT - r);
    Halved(s[d], Pow2(r - 1));
    TopBit(s[d] % Pow2(r), Pow2(r - 1), Pow2(DIGIT_BIT - r), buf);
    assert Pow2(DIGIT_BIT - (r - 1)) == 2 * Pow2(DIGIT_BIT - r);
    WrapKeeps(2 * buf);
  }

  lemma WrapKeeps(x: nat)
    ensures x % DIGIT_WRAP % BASE == x % BASE
  {
  }

  lemma Halved(x: nat, p: nat)
    requires p > 0
    ensures x % (2 * p) % p == x % p && x % (2 * p) < 2 * p
  {
    DivMod(x, 2 * p);
    var q, r := x / (2 * p), x % (2 * p);
    DivMod(r, p);
    assert q * (2 * p) == (2 * q) * p;
    Distribute(2 * q, r / p, p);
    DivUnique(x, p, 2 * q + r / p, r % p);
  }

  // ----- the window machine

  /** The numbers the machine works on: the result, which it changes, and the table and constants, which it reads. */
  ghost predicate Machine(res: MpInt, M: seq<MpInt?>, P: MpInt, red: Redux, v: nat, c: Context)
    reads res, M, P, Refs(red)
  {
    && Under(c, red, P) && Holds(res, v, c) && res != P && res !in Refs(red) && res !in M
    && Table(M, Pow2(c.w - 1), Pow2(c.w), c)
  }

  /** "ok window is filled so square as required and multiply"; the cell is one that was filled. */
  method EmptyWindow(res: MpInt, M: seq<MpInt?>, w: nat, bitbuf: nat, P: MpInt, red: Redux, word: Word, ghost v: nat,
                     ghost c: Context)
    requires Machine(res, M, P, red, v, c) && w == c.w && Pow2(w - 1) <= bitbuf < Pow2(w)
    requires (c.exact && CountsBuffer(c.m) ==> word < BASE) && IsWord(c.ws, word)
    modifies res
    ensures Machine(res, M, P, red, ReducedProduct(c.m, Squares(c.m, v, w), CellOf(c, bitbuf), word), c)
  {
    assert Cell(M, bitbuf, c);
    SquareTimes(res, w, P, red, v, c);
    assert Cell(M, bitbuf, c);
    MultiplyAndReduce(res, M[bitbuf], res, P, red, word, Squares(c.m, v, w), CellOf(c, bitbuf), c);
  }

  /** A zero bit between windows. */
  method ZeroBit(res: MpInt, M: seq<MpInt?>, P: MpInt, red: Redux, ghost v: nat, ghost c: Context)
    requires Machine(res, M, P, red, v, c)
    modifies res
    ensures Machine(res, M, P, red, ReducedSquare(c.m, v), c)
  {
    SquareAndReduce(res, P, red, v, c);
  }

  /** The state is the machine's, and it says what it has to about the bits read so far. */
  ghost predicate Follows(st: State, e: nat, p: Progress, y: nat, w: nat) {
    && p.st == st && p.e == e && st.bitcpy < w && st.mode <= 2
    && (st.bitcpy + 1 == w && (y == 1 || st.mode == 2) ==>
          1 < WithBit(st, w, y) && Pow2(w - 1) <= WithBit(st, w, y) < Pow2(w))
  }

  /** State, exponent and result are the machine's. */
  ghost predicate AtState(st: State, e: nat, res: MpInt, M: seq<MpInt?>, P: MpInt, red: Redux, p: Progress, c: Context)
    reads res, M, P, Refs(red)
  {
    p.st == st && p.e == e && Machine(res, M, P, red, p.res, c)
  }

  /** The body of the machine, for one bit of the exponent; e, the exponent of the result, selects the word. */
  method Step(st: State, e: nat, y: nat, res: MpInt, M: seq<MpInt?>, w: nat, P: MpInt, red: Redux, ws: Words,
              ghost p: Progress, ghost p': Progress, ghost c: Context)
    returns (st': State, e': nat)
    requires AtState(st, e, res, M, P, red, p, c) && w == c.w && ws == c.ws && y <= 1 && Follows(st, e, p, y, w)
    requires p' == Advance(c.m, c.ws, c.one, w, p, y)
    modifies res
    ensures AtState(st', e', res, M, P, red, p', c)
  {
    if st.mode == 0 && y == 0 {
      return st, e;
    }
    if st.mode == 1 && y == 0 {
      ZeroBit(res, M, P, red, p.res, c);
      return st, 2 * e;
    }
    st', e' := AddToWindow(st, e, y, res, M, w, P, red, ws, p, c);
  }

  /** "else we add it to the window", which may be full then. */
  method AddToWindow(st: State, e: nat, y: nat, res: MpInt, M: seq<MpInt?>, w: nat, P: MpInt, red: Redux, ws: Words,
                     ghost p: Progress, ghost c: Context)
    returns (st': State, e': nat)
    requires Machine(res, M, P, red, p.res, c) && w == c.w && ws == c.ws && y <= 1 && Follows(st, e, p, y, w)
    requires y == 1 || st.mode == 2
    modifies res
    ensures AtState(st', e', res, M, P, red, Advance(c.m, c.ws, c.one, w, p, y), c)
  {
    var bitcpy := st.bitcpy + 1;
    var bitbuf := WithBit(st, w, y);
    st', e' := State(2, bitcpy, bitbuf), e;
    if bitcpy == w {
      FullAdvance(c.m, c.ws, c.one, w, p, y, bitbuf);
      st', e' := CloseWindow(e, res, M, w, bitbuf, P, red, ws, p.res, c);
    } else {
      OpenAdvance(c.m, c.ws, c.one, w, p, y, bitbuf);
    }
  }

  /** The window is full: its cell enters the result, and it is emptied. */
  method CloseWindow(e: nat, res: MpInt, M: seq<MpInt?>, w: nat, bitbuf: nat, P: MpInt, red: Redux, ws: Words,
                     ghost v: nat, ghost c: Context)
    returns (st': State, e': nat)
    requires Machine(res, M, P, red, v, c) && w == c.w && ws == c.ws && 1 < bitbuf && Pow2(w - 1) <= bitbuf < Pow2(w)
    modifies res
    ensures st' == State(1, 0, 0) && e' == Prod(e, Pow2(w)) + bitbuf
    ensures Machine(res, M, P, red, ReducedProduct(c.m, Squares(c.m, v, w), CellValue(c.m, c.ws, c.one, w, bitbuf),
                                                   c.ws.result(e')), c)
  {
    e' := Prod(e, Pow2(w)) + bitbuf;
    EmptyWindow(res, M, w, bitbuf, P, red, ws.result(e'), v, c);
    st' := State(1, 0, 0);
  }

  /** A full window selects a cell of the upper half. */
  lemma FullWindow(st: State, e: nat, w: nat, pre: nat, y: nat, bitbuf: nat)
    requires 2 <= w <= 8 && Meaning(st, w, pre, e, pre - e * Pow2(st.bitcpy)) && y <= 1 && (y == 1 || st.mode == 2)
    requires st.bitcpy + 1 == w && bitbuf == WithBit(st, w, y)
    ensures 1 < bitbuf && Pow2(w - 1) <= bitbuf < Pow2(w)
  {
    var win := WindowGrows(st, w, pre, e, pre - e * Pow2(st.bitcpy), y, State(2, w, bitbuf));
    LargeCell(w, bitbuf);
  }

  lemma LargeCell(w: nat, i: nat)
    requires 2 <= w <= 8 && Pow2(w - 1) <= i
    ensures i > 1
  {
    WindowFits(w);
  }

  /** The machine's progress through the exponent. */
  ghost function ProgressAt(c: Context, start: nat, pre: nat): Progress
    requires c.w > 0
  {
    PrefixState(c.m, c.ws, c.one, start, c.w, pre)
  }

  /** The loop over the exponent's bits, on its n digits s. */
  method ReadBits(s: seq<nat>, n: nat, res: MpInt, M: seq<MpInt?>, w: nat, P: MpInt, red: Redux, ws: Words,
                  ghost start: nat, ghost c: Context)
    returns (st: State, e: nat)
    requires n <= |s| && Digits(s, n) && Machine(res, M, P, red, start, c) && w == c.w && ws == c.ws
    modifies res
    ensures AtBit(st, e, res, M, P, red, start, Val(s, 0, n), c)
  {
    var buf: nat, bitcnt: int, digidx: int := 0, 1, n - 1;
    st, e := State(0, 0, 0), 0;
    ghost var pre: nat, rem: nat := 0, DIGIT_BIT * n;
    NothingRead(s, n, rem);
    AtFirstBit(res, M, P, red, start, c);
    while true
      invariant Reading(s, n, buf, bitcnt, digidx, pre, rem) && buf < DIGIT_WRAP
      invariant AtBit(st, e, res, M, P, red, start, pre, c)
      decreases rem
    {
      var done;
      done, st, e, buf, bitcnt, digidx, pre, rem :=
        ReadBit(s, n, st, e, buf, bitcnt, digidx, res, M, w, P, red, ws, start, pre, rem, c);
      if done {
        break;
      }
    }
    AllRead(s, n, pre, rem);
  }

  /** The body of that loop: the next bit, if there is one, and what the machine does with it. */
  method ReadBit(s: seq<nat>, n: nat, st: State, e: nat, buf0: nat, bitcnt0: int, digidx0: int, res: MpInt,
                 M: seq<MpInt?>, w: nat, P: MpInt, red: Redux, ws: Words, ghost start: nat, ghost pre: nat,
                 ghost rem: nat, ghost c: Context)
    returns (done: bool, st': State, e': nat, buf: nat, bitcnt: int, digidx: int, ghost pre': nat, ghost rem': nat)
    requires Reading(s, n, buf0, bitcnt0, digidx0, pre, rem) && buf0 < DIGIT_WRAP && w == c.w && ws == c.ws
    requires AtBit(st, e, res, M, P, red, start, pre, c)
    modifies res
    ensures done <==> rem == 0
    ensures done ==> pre' == pre && rem' == rem && st' == st && e' == e
    ensures AtBit(st', e', res, M, P, red, start, pre', c)
    ensures !done ==> Reading(s, n, buf, bitcnt, digidx, pre', rem') && buf < DIGIT_WRAP && rem' < rem
  {
    var y;
    done, y, buf, bitcnt, digidx, pre', rem' := NextBit(s, n, buf0, bitcnt0, digidx0, pre, rem);
    if done {
      st', e', pre', rem' := st, e, pre, rem;
    } else {
      st', e' := StepAt(st, e, y, res, M, w, P, red, ws, start, pre, pre', c);
    }
  }

  /** They are where the machine is after the leading bits that make up pre. */
  ghost predicate AtBit(st: State, e: nat, res: MpInt, M: seq<MpInt?>, P: MpInt, red: Redux, start: nat, pre: nat,
                        c: Context)
    reads res, M, P, Refs(red)
  {
    2 <= c.w <= 8 && AtState(st, e, res, M, P, red, ProgressAt(c, start, pre), c)
  }

  /** The machine's own states have their meaning. */
  lemma PrefixFollows(c: Context, start: nat, pre: nat, y: nat)
    requires 2 <= c.w <= 8 && y <= 1
    ensures var p := ProgressAt(c, start, pre); Follows(p.st, p.e, p, y, c.w)
  {
    PrefixTracks(c.m, c.ws, (v: nat, e: nat) => true, c.one, start, c.w, pre);
    var p := ProgressAt(c, start, pre);
    if p.st.bitcpy + 1 == c.w && (y == 1 || p.st.mode == 2) {
      FullWindow(p.st, p.e, c.w, pre, y, WithBit(p.st, c.w, y));
    }
  }

  lemma AtFirstBit(res: MpInt, M: seq<MpInt?>, P: MpInt, red: Redux, start: nat, c: Context)
    requires Machine(res, M, P, red, start, c)
    ensures AtBit(State(0, 0, 0), 0, res, M, P, red, start, 0, c)
  {
    assert ProgressAt(c, start, 0) == Progress(State(0, 0, 0), start, 0);
  }

  /** The body of that loop. */
  method StepAt(st: State, e: nat, y: nat, res: MpInt, M: seq<MpInt?>, w: nat, P: MpInt, red: Redux, ws: Words,
                ghost start: nat, ghost pre: nat, ghost next: nat, ghost c: Context)
    returns (st': State, e': nat)
    requires AtBit(st, e, res, M, P, red, start, pre, c) && w == c.w && ws == c.ws && y <= 1 && next == 2 * pre + y
    modifies res
    ensures AtBit(st', e', res, M, P, red, start, next, c)
  {
    ghost var p, p' := ProgressAt(c, start, pre), ProgressAt(c, start, next);
    PrefixFollows(c, start, pre, y);
    PrefixStep(c, start, pre, y);
    st', e' := Step(st, e, y, res, M, w, P, red, ws, p, p', c);
  }

  /** One more bit; leading zeros change nothing. */
  lemma PrefixStep(c: Context, start: nat, pre: nat, y: nat)
    requires c.w > 0 && y <= 1
    ensures PrefixState(c.m, c.ws, c.one, start, c.w, 2 * pre + y) ==
            Advance(c.m, c.ws, c.one, c.w, PrefixState(c.m, c.ws, c.one, start, c.w, pre), y)
  {
    assert (2 * pre + y) / 2 == pre && (2 * pre + y) % 2 == y;
  }

  lemma NothingRead(s: seq<nat>, n: nat, rem: nat)
    requires n <= |s| && Digits(s, n) && rem == DIGIT_BIT * n
    ensures Val(s, 0, n) / Pow2(rem) == 0
  {
    ValBound(s, 0, n);
    WIsPow2(n);
    DivUnique(Val(s, 0, n), Pow2(rem), 0, Val(s, 0, n));
  }

  lemma AllRead(s: seq<nat>, n: nat, pre: nat, rem: nat)
    requires n <= |s| && rem == 0 && Val(s, 0, n) / Pow2(rem) == pre
    ensures pre == Val(s, 0, n)
  {
    assert Val(s, 0, n) / 1 == Val(s, 0, n);
  }

  /** The result and cell 1, while the leftover window is drained. */
  ghost predicate Drainable(res: MpInt, one: MpInt, P: MpInt, red: Redux, d: Drain, c: Context)
    reads res, one, P, Refs(red)
  {
    && Under(c, red, P) && Holds(res, d.res, c) && res != P && res !in Refs(red) && res != one
    && Holds(one, c.one, c)
  }

  /** "if bits remain then square/multiply" */
  method Leftover(st: State, e: nat, res: MpInt, one: MpInt, w: nat, P: MpInt, red: Redux, ws: Words,
                  ghost p: Progress, ghost c: Context)
    requires Drainable(res, one, P, red, Drain(p.res, st.bitbuf, e), c)
    requires p.st == st && p.e == e && w == c.w && ws == c.ws
    modifies res
    ensures Holds(res, Drained(c.m, c.ws, c.one, w, p, st.bitcpy).res, c)
  {
    var bitbuf, now, x: nat := st.bitbuf, e, 0;
    ghost var d := Drained(c.m, c.ws, c.one, w, p, 0);
    while x < st.bitcpy
      invariant x <= st.bitcpy && d == Drained(c.m, c.ws, c.one, w, p, x)
      invariant Drainable(res, one, P, red, d, c) && d.bitbuf == bitbuf && d.e == now
    {
      bitbuf, now := DrainBit(res, one, bitbuf, now, w, P, red, ws, d, c);
      d := DrainedBit(c.m, c.ws, c.one, w, d);
      x := x + 1;
    }
  }

  /** One bit of the leftover window: square, shift it out of the buffer, multiply if it is set. */
  method DrainBit(res: MpInt, one: MpInt, bitbuf0: nat, now0: nat, w: nat, P: MpInt, red: Redux, ws: Words,
                  ghost d: Drain, ghost c: Context)
    returns (bitbuf: nat, now: nat)
    requires Drainable(res, one, P, red, d, c) && d.bitbuf == bitbuf0 && d.e == now0 && w == c.w && ws == c.ws
    modifies res
    ensures var d' := DrainedBit(c.m, c.ws, c.one, w, d);
            Drainable(res, one, P, red, d', c) && d'.bitbuf == bitbuf && d'.e == now
  {
    SquareAndReduce(res, P, red, d.res, c);
    bitbuf, now := 2 * bitbuf0, 2 * now0;
    if (bitbuf / Pow2(w)) % 2 != 0 {
      now := now + 1;
      MultiplyAndReduce(res, one, res, P, red, ws.result(now), ReducedSquare(c.m, d.res), c.one, c);
    }
  }

  /** From cell 1 and the initial result: window size, table, the machine, and what it leaves over. */
  method Exponentiate(one: MpInt, res: MpInt, X: MpInt, P: MpInt, red: Redux, ws: Words, ghost start: nat,
                      ghost c: Context)
    requires X.Valid() && X != res && Under(c, red, P) && Holds(one, c.one, c) && Holds(res, start, c) && ws == c.ws
    requires res != one && res != P && res !in Refs(red) && c.w == WindowSizeOf(BitCount(X.Mag()))
    modifies res
    ensures Holds(res, Powered(c.m, c.ws, c.one, start, X.Mag()), c)
  {
    var w := ExponentWindow(X);
    var M := FillTable(one, w, P, red, ws, c);
    RunMachine(res, M, X, w, P, red, ws, start, c);
  }

  /** "find window size" */
  method ExponentWindow(X: MpInt) returns (w: nat)
    requires X.Valid()
    ensures w == WindowSizeOf(BitCount(X.Mag()))
  {
    var bits := CountBits(X);
    BitCountOfNumber(X, bits);
    w := WindowSize(bits);
  }

  /** The loop and "if bits remain then square/multiply". */
  method RunMachine(res: MpInt, M: seq<MpInt?>, X: MpInt, w: nat, P: MpInt, red: Redux, ws: Words, ghost start: nat,
                    ghost c: Context)
    requires X.Valid() && X != res && Machine(res, M, P, red, start, c) && w == c.w == WindowSizeOf(BitCount(X.Mag()))
    requires ws == c.ws
    modifies res
    ensures Holds(res, Powered(c.m, c.ws, c.one, start, X.Mag()), c)
  {
    var st, e := ReadBits(X.dp, X.used, res, M, w, P, red, ws, start, c);
    if st.mode == 2 && st.bitcpy > 0 {
      assert Cell(M, 1, c);
      Leftover(st, e, res, M[1], w, P, red, ws, ProgressAt(c, start, X.Mag()), c);
    }
  }

  lemma BitCountOfNumber(X: MpInt, bits: nat)
    requires X.Valid() && X.Mag() < Pow2(bits) && (X.used > 0 ==> bits > 0 && Pow2(bits - 1) <= X.Mag())
    requires X.used == 0 ==> bits == 0
    ensures bits == BitCount(X.Mag())
  {
    MagBounds(X);
    if X.used > 0 {
      BitCountIs(X.Mag(), bits);
    }
  }

  // ----- mp_exptmod_fast

  /** An odd modulus is not a power of two. */
  lemma OddStart(m: nat)
    requires m % 2 == 1 && m > 1
    ensures !StartsAtModulus(m)
  {
    BitCountBounds(m);
    EvenPower(BitCount(m) - 1);
  }

  lemma EvenPower(e: nat)
    ensures Pow2(e) == 1 || Pow2(e) % 2 == 0
  {
    if e > 0 {
      assert Pow2(e) == 2 * Pow2(e - 1);
    }
  }

  /** "now we need R mod m" and "now set M[1] to G * R mod m". */
  method MontgomeryStartValues(G: MpInt, P: MpInt) returns (res: MpInt, one: MpInt)
    requires G.Valid() && P.Valid() && !P.neg && P.Mag() % 2 == 1 && P.Mag() > 1
    ensures fresh(res) && fresh(one) && res != one && res.Valid() && one.Valid() && res.Clean() && one.Clean()
    ensures !res.neg && !one.neg
    ensures res.Mag() == StartOf(P.Mag()) < P.Mag() && one.Mag() == FirstOf(G.Value(), P.Mag()) < P.Mag()
  {
    res := new MpInt();
    OddStart(P.Mag());
    DigitCounts.UsedIsNumDigits(P);
    CalcNormalization(res, P);
    DivMod(W(P.used), P.Mag());
    one := new MpInt();
    MagBounds(P);
    var ok := Modulo.MulMod(G, res, P, one);
    MagBounds(one);
    DivMod(ToomThree.Times(G.Value(), res.Value()), P.Mag());
  }

  /** The words matter only for a modulus of more than 255 digits, and the result is known if they are digits. */
  ghost predicate Known(P: MpInt, ws: Words)
    reads P
  {
    P.used <= MAX_MODULUS || DigitWords(ws)
  }

  /**
   mp_exptmod_fast with redmode 0.  False is MP_VAL, for an even modulus; else the result is what the machine gives
   for the words ws; PowerLaws.FastPowerRight says when that is the power.
   */
  method ExptmodMontgomery(G: MpInt, X: MpInt, P: MpInt, Y: MpInt, ws: Words) returns (ok: bool, ghost rho: nat)
    requires G.Valid() && X.Valid() && P.Valid() && !P.neg && Y.Valid() && P.Mag() > 1
    modifies Y
    ensures ok == (old(P.Mag()) % 2 == 1) && Y.Valid()
    ensures ok ==> !Y.neg && Y.Mag() < old(P.Mag()) && OddModulus(old(P.Mag()), rho) && ZeroReads(Y)
    ensures ok && old(Known(P, ws)) ==>
              Y.Mag() == FastPower(old(G.Value()), old(X.Mag()), old(P.Mag()), rho, ws)
    ensures ok && old(Known(P, ws)) && FirstRight(old(G.Value()), old(P.Mag()))
            && QuietPower(old(G.Value()), old(X.Mag()), old(P.Mag()), rho, ws) ==>
              Y.Mag() == Congruences.Pow(old(G.Value()), old(X.Mag())) % old(P.Mag())
  {
    MagBounds(P);
    OddDigit(P);
    DigitCounts.UsedIsNumDigits(P);
    var mp;
    ok, mp := MontgomerySetup(P.dp[0]);
    rho := mp;
    if !ok {
      return;
    }
    RhoOfNumber(P, mp);
    var res, one := MontgomeryStartValues(G, P);
    MontgomeryPower(one, res, X, P, mp, ws, G.Value());
    Move(res, Y);
  }

  /** From the start values to the result, and what it is worth. */
  method MontgomeryPower(one: MpInt, res: MpInt, X: MpInt, P: MpInt, rho: nat, ws: Words, ghost g: int)
    requires X.Valid() && P.Valid() && !P.neg && 0 < P.used && Rho(P.dp[0], rho) && OddModulus(P.Mag(), rho)
    requires one.Valid() && res.Valid() && !one.neg && !res.neg && one.Clean() && res.Clean()
    requires res != one && res != X && res != P && res.Mag() == StartOf(P.Mag()) < P.Mag()
    requires one.Mag() == FirstOf(g, P.Mag()) < P.Mag() && P.used == DigitCounts.NumDigits(P.Mag())
    modifies res
    ensures res.Valid() && !res.neg && res.Mag() < P.Mag() && ZeroReads(res)
    ensures Known(P, ws) ==> res.Mag() == FastPower(g, X.Mag(), P.Mag(), rho, ws)
    ensures Known(P, ws) && FirstRight(g, P.Mag()) && QuietPower(g, X.Mag(), P.Mag(), rho, ws) ==>
              res.Mag() == Congruences.Pow(g, X.Mag()) % P.Mag()
  {
    ghost var x, n := X.Mag(), P.Mag();
    ghost var c := Context(Redced(n, P.used, rho), ws, one.Mag(), WindowSizeOf(BitCount(x)), Known(P, ws), Unknown);
    Exponentiate(one, res, X, P, MontgomeryRho(rho), ws, res.Mag(), c);
    LastReduction(res, P, rho, Powered(c.m, ws, c.one, StartOf(n), x), c);
    if FirstRight(g, n) && QuietPower(g, x, n, rho, ws) {
      FastPowerRight(g, x, n, rho, ws);
    }
  }

  /** "fixup result if Montgomery reduction is used" */
  method LastReduction(res: MpInt, P: MpInt, rho: nat, ghost v: nat, ghost c: Context)
    requires Under(c, MontgomeryRho(rho), P) && Holds(res, v, c) && res != P
    modifies res
    ensures Holds(res, Reduced(c.m, v), c) && ZeroReads(res)
  {
    MulMono(1, P.Mag(), P.Mag());
    if CountsBuffer(c.m) {
      CleanReducible(res, P);
    }
    ReduceBy(res, P, MontgomeryRho(rho));
  }

  /** "mp_set (&res, 1)" and "mp_mod (G, P, &M[1])". */
  method PlainStartValues(G: MpInt, P: MpInt) returns (res: MpInt, one: MpInt)
    requires G.Valid() && P.Valid() && !P.neg && P.Mag() > 0
    ensures fresh(res) && fresh(one) && res != one && res.Valid() && one.Valid() && !res.neg && !one.neg
    ensures res.Mag() == 1 && one.Mag() == G.Value() % P.Mag() < P.Mag() && ZeroReads(res) && ZeroReads(one)
  {
    res := new MpInt();
    res.Set(1);
    MagBounds(res);
    one := new MpInt();
    var ok := Modulo.Mod(G, P, one);
    MagBounds(P);
    MagBounds(one);
  }

  /** mp_exptmod_fast with redmode 2: folding with one digit, whether it is right for the modulus or not. */
  method ExptmodFoldDigit(G: MpInt, X: MpInt, P: MpInt, Y: MpInt, ws: Words)
    requires G.Valid() && X.Valid() && P.Valid() && !P.neg && Y.Valid() && P.Mag() > 1
    modifies Y
    ensures Y.Valid() && !Y.neg && ZeroReads(Y) && Y.Mag() == FoldPower(old(G.Value()), old(X.Mag()), old(P.Mag()))
  {
    var res := FoldDigitRun(G, X, P, ws);
    Move(res, Y);
  }

  /** Everything but the exchange with the destination. */
  method FoldDigitRun(G: MpInt, X: MpInt, P: MpInt, ws: Words) returns (res: MpInt)
    requires G.Valid() && X.Valid() && P.Valid() && !P.neg && P.Mag() > 1
    ensures fresh(res) && res.Valid() && !res.neg && ZeroReads(res)
    ensures res.Mag() == FoldPower(G.Value(), X.Mag(), P.Mag())
  {
    var d := Setup2k(P);
    var one;
    res, one := PlainStartValues(G, P);
    FoldDigitPower(one, res, X, P, d, ws, G.Value());
  }

  lemma FoldPrepared(P: MpInt, d: nat)
    requires P.Valid() && !P.neg && P.Mag() > 0 && d == (Pow2(BitCount(P.Mag())) - P.Mag()) % BASE
    ensures Prepared(FoldDigit(d), P) && Model(FoldDigit(d), P) == FoldDigitOf(P.Mag())
  {
    FoldConstant(P.Mag(), d);
  }

  method FoldDigitPower(one: MpInt, res: MpInt, X: MpInt, P: MpInt, d: nat, ws: Words, ghost g: int)
    requires one.Valid() && res.Valid() && !one.neg && !res.neg && P.Valid() && !P.neg && X.Valid() && P.Mag() > 1
    requires res != one && res != X && res != P && res.Mag() == 1 && one.Mag() == g % P.Mag() < P.Mag()
    requires ZeroReads(res) && ZeroReads(one)
    requires d == (Pow2(BitCount(P.Mag())) - P.Mag()) % BASE
    modifies res
    ensures res.Valid() && !res.neg && ZeroReads(res)
    ensures res.Mag() == FoldPower(g, X.Mag(), P.Mag())
  {
    ghost var c := Context(FoldDigitOf(P.Mag()), ws, one.Mag(), WindowSizeOf(BitCount(X.Mag())), true, Blank);
    FoldPrepared(P, d);
    Exponentiate(one, res, X, P, FoldDigit(d), ws, 1, c);
    FoldPowerAnyWords(g, X.Mag(), P.Mag(), ws);
  }

  // ----- s_mp_exptmod

  /** s_mp_exptmod with redmode 0: Barrett reduction.  Modulo one, 0 as exponent gives one. */
  method ExptmodBarrett(G: MpInt, X: MpInt, P: MpInt, Y: MpInt, ws: Words) returns (ok: bool)
    requires G.Valid() && X.Valid() && P.Valid() && !P.neg && Y.Valid()
    modifies Y
    ensures ok == (old(P.Mag()) != 0) && Y.Valid()
    ensures ok ==> !Y.neg && Y.Mag() == PowerModulo(old(G.Value()), old(X.Mag()), old(P.Mag())) && LowAmong(Y, ws)
  {
    var mu := new MpInt();
    ok := Barrett.ReduceSetup(mu, P);
    if !ok {
      return false;
    }
    var res, one := PlainStartValues(G, P);
    PlainExponentiate(one, res, X, P, BarrettMu(mu), ws, G.Value());
    Move(res, Y);
  }

  /** The machine over a reduction that gives residues. */
  method PlainExponentiate(one: MpInt, res: MpInt, X: MpInt, P: MpInt, red: Redux, ws: Words, ghost g: int)
    requires Prepared(red, P) && Model(red, P) == Residue(P.Mag())
    requires X.Valid() && res != X && res != P && res !in Refs(red)
    requires one.Valid() && res.Valid() && !one.neg && !res.neg && res != one
    requires res.Mag() == 1 && one.Mag() == g % P.Mag() < P.Mag() && ZeroReads(res) && ZeroReads(one)
    modifies res
    ensures res.Valid() && !res.neg && res.Mag() == PowerModulo(g, X.Mag(), P.Mag())
    ensures LowAmong(res, ws) && (!red.BarrettMu? ==> ZeroReads(res))
  {
    ghost var c := Context(Residue(P.Mag()), ws, one.Mag(), WindowSizeOf(BitCount(X.Mag())), true,
                             if red.BarrettMu? then Leftovers else Blank);
    Exponentiate(one, res, X, P, red, ws, 1, c);
    PlainPower(c.m, ws, g, X.Mag());
  }

  /** s_mp_exptmod with redmode 1: folding 2^p - d. */
  method ExptmodFoldLong(G: MpInt, X: MpInt, P: MpInt, Y: MpInt, ws: Words)
    requires G.Valid() && X.Valid() && P.Valid() && !P.neg && Y.Valid() && P.Mag() > 0
    modifies Y
    ensures Y.Valid() && !Y.neg && ZeroReads(Y)
    ensures Y.Mag() == PowerModulo(old(G.Value()), old(X.Mag()), old(P.Mag()))
  {
    var d := new MpInt();
    Setup2kL(P, d);
    var res, one := PlainStartValues(G, P);
    PlainExponentiate(one, res, X, P, FoldLong(d), ws, G.Value());
    Move(res, Y);
  }
}
