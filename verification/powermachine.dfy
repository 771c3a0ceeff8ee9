/**
 The sliding window of HAC 14.85 as a function of numbers, for each of the library's reductions.

 `Powered` follows the source step by step: table, bits of the exponent, leftover window.  It takes two things that the
 power does not depend on: what the reduction makes of a number, right or wrong, and the words that fast_s_mp_mul_digs
 copies from its local array without having written them.
 */
module PowerMachine {
  import opened Arith
  import opened Radix
  import Bits
  import DigitCounts
  import FoldReduction
  import Montgomery
  import Product

  // ----- reductions and products

  /** What a word of the local array can hold. */
  type Word = w: nat | w < DIGIT_WRAP

  /** The word found when cell i of the table is made, and when the result is about to become the power e. */
  datatype Words = Words(table: nat -> Word, result: nat -> Word)

  /** All words are proper digits. */
  ghost predicate DigitWords(ws: Words) {
    forall i: nat :: ws.table(i) < BASE && ws.result(i) < BASE
  }

  /** w is one of the words. */
  ghost predicate IsWord(ws: Words, w: nat) {
    exists i: nat :: ws.table(i) == w || ws.result(i) == w
  }

  /** All words are zero. */
  ghost predicate Silent(ws: Words) {
    forall i: nat :: ws.table(i) == 0 && ws.result(i) == 0
  }

  /**
   mp_reduce and mp_reduce_2k_l; the two forms of mp_montgomery_reduce for k digits; mp_reduce_2k with the constant d.
   */
  datatype Form = Residue(n: nat) | Redced(n: nat, k: nat, rho: nat) | Folding(n: nat, d: nat, pw: nat)

  type Reduction = f: Form | f.n > 0 && (f.Folding? ==> f.d + f.n <= f.pw) witness Residue(1)

  function Reduced(m: Reduction, x: nat): nat {
    match m
    case Residue(n) => x % n
    case Redced(n, k, rho) => Montgomery.Redc(x, n, rho, k)
    case Folding(n, d, pw) => FoldReduction.Folded(x, n, d, pw)
  }

  function Prod(x: nat, y: nat): nat {
    MulMono(0, x, y);
    x * y
  }

  /** What the unwritten word adds to a product; only the baseline Montgomery reduction counts it. */
  function Stale(m: Reduction, x: nat, y: nat, word: nat): nat {
    if CountsBuffer(m) && Product.Comba(DigitCounts.NumDigits(x), DigitCounts.NumDigits(y))
    then Prod(word, W(DigitCounts.NumDigits(x) + DigitCounts.NumDigits(y)))
    else 0
  }

  /** "mp_mul", "redux" */
  function ReducedProduct(m: Reduction, x: nat, y: nat, word: nat): nat {
    Reduced(m, Prod(x, y) + Stale(m, x, y, word))
  }

  /** "mp_sqr", "redux" */
  function ReducedSquare(m: Reduction, x: nat): nat {
    Reduced(m, Prod(x, x))
  }

  function Squares(m: Reduction, x: nat, j: nat): nat {
    if j == 0 then x else ReducedSquare(m, Squares(m, x, j - 1))
  }

  // ----- the machine

  /** "find window size" */
  function WindowSizeOf(bits: nat): (w: nat)
    ensures 2 <= w <= 8
  {
    if bits <= 7 then 2 else if bits <= 36 then 3 else if bits <= 140 then 4 else if bits <= 450 then 5
    else if bits <= 1303 then 6 else if bits <= 3529 then 7 else 8
  }

  /** The cells of the upper half of the table; the lowest is cell 1 squared w - 1 times. */
  function CellValue(m: Reduction, ws: Words, one: nat, w: nat, i: nat): nat
    requires w > 0
  {
    if i <= Pow2(w - 1) then Squares(m, one, w - 1)
    else ReducedProduct(m, CellValue(m, ws, one, w, i - 1), one, ws.table(i))
  }

  /** The machine's mode: no one bit seen yet, between windows, or inside one. */
  datatype State = State(mode: nat, bitcpy: nat, bitbuf: nat)

  /** The machine, the result so far, and the exponent that the result stands for. */
  datatype Progress = Progress(st: State, res: nat, e: nat)

  /** "add it to the window": the bit's place in bitbuf is still zero, so the or is a sum. */
  function WithBit(st: State, w: nat, y: nat): nat
    requires st.bitcpy < w
  {
    st.bitbuf + Prod(y, Pow2(w - st.bitcpy - 1))
  }

  /** One more bit of the exponent. */
  function Advance(m: Reduction, ws: Words, one: nat, w: nat, p: Progress, y: nat): (p': Progress)
    requires p.st.bitcpy < w
    ensures p'.st.bitcpy < w
  {
    var n, bitbuf := p.st.bitcpy + 1, WithBit(p.st, w, y);
    if p.st.mode == 0 && y == 0 then p
    else if p.st.mode == 1 && y == 0 then Progress(p.st, ReducedSquare(m, p.res), 2 * p.e)
    else if n < w then Progress(State(2, n, bitbuf), p.res, p.e)
    else
      var e := Prod(p.e, Pow2(w)) + bitbuf;
      Progress(State(1, 0, 0),
               ReducedProduct(m, Squares(m, p.res, w), CellValue(m, ws, one, w, bitbuf), ws.result(e)), e)
  }

  /** After the leading bits that make up the number pre. */
  function PrefixState(m: Reduction, ws: Words, one: nat, start: nat, w: nat, pre: nat): (p: Progress)
    requires w > 0
    ensures p.st.bitcpy < w
  {
    if pre == 0 then Progress(State(0, 0, 0), start, 0)
    else Advance(m, ws, one, w, PrefixState(m, ws, one, start, w, pre / 2), pre % 2)
  }

  /** The leftover window while it is worked off. */
  datatype Drain = Drain(res: nat, bitbuf: nat, e: nat)

  function DrainedBit(m: Reduction, ws: Words, one: nat, w: nat, d: Drain): Drain {
    if (2 * d.bitbuf / Pow2(w)) % 2 != 0
    then Drain(ReducedProduct(m, ReducedSquare(m, d.res), one, ws.result(2 * d.e + 1)), 2 * d.bitbuf, 2 * d.e + 1)
    else Drain(ReducedSquare(m, d.res), 2 * d.bitbuf, 2 * d.e)
  }

  /** After x bits of the leftover window. */
  function Drained(m: Reduction, ws: Words, one: nat, w: nat, p: Progress, x: nat): Drain {
    if x == 0 then Drain(p.res, p.st.bitbuf, p.e) else DrainedBit(m, ws, one, w, Drained(m, ws, one, w, p, x - 1))
  }

  /** What the machine leaves in the result for exponent x, from cell 1 and the start value of the result. */
  function Powered(m: Reduction, ws: Words, one: nat, start: nat, x: nat): nat {
    var w := WindowSizeOf(Bits.BitCount(x));
    var p := PrefixState(m, ws, one, start, w, x);
    if p.st.mode == 2 then Drained(m, ws, one, w, p, p.st.bitcpy).res else p.res
  }

  // ----- when the words do not matter

  /** Only the baseline Montgomery reduction counts what lies above a number. */
  predicate CountsBuffer(m: Form) {
    m.Redced? && m.k > Montgomery.MAX_MODULUS
  }

  /** No product on the way to cell i counts a word other than zero. */
  predicate CellQuiet(m: Reduction, ws: Words, one: nat, w: nat, i: nat)
    requires w > 0
  {
    i <= Pow2(w - 1)
    || (CellQuiet(m, ws, one, w, i - 1) && Stale(m, CellValue(m, ws, one, w, i - 1), one, ws.table(i)) == 0)
  }

  /** The same for one bit: a full window, and the cell that it selects. */
  predicate AdvanceQuiet(m: Reduction, ws: Words, one: nat, w: nat, p: Progress, y: nat)
    requires p.st.bitcpy < w
  {
    var n, bitbuf := p.st.bitcpy + 1, WithBit(p.st, w, y);
    || (p.st.mode <= 1 && y == 0)
    || n < w
    || (CellQuiet(m, ws, one, w, bitbuf)
        && Stale(m, Squares(m, p.res, w), CellValue(m, ws, one, w, bitbuf), ws.result(Prod(p.e, Pow2(w)) + bitbuf))
           == 0)
  }

  predicate PrefixQuiet(m: Reduction, ws: Words, one: nat, start: nat, w: nat, pre: nat)
    requires w > 0
  {
    pre == 0 || (PrefixQuiet(m, ws, one, start, w, pre / 2)
                 && AdvanceQuiet(m, ws, one, w, PrefixState(m, ws, one, start, w, pre / 2), pre % 2))
  }

  predicate DrainedQuiet(m: Reduction, ws: Words, one: nat, w: nat, p: Progress, x: nat) {
    x == 0 || (DrainedQuiet(m, ws, one, w, p, x - 1)
               && var d := Drained(m, ws, one, w, p, x - 1);
               (2 * d.bitbuf / Pow2(w)) % 2 == 0 || Stale(m, ReducedSquare(m, d.res), one, ws.result(2 * d.e + 1)) == 0)
  }

  /** In the whole run for exponent x, every word that is counted is zero. */
  predicate Quiet(m: Reduction, ws: Words, one: nat, start: nat, x: nat) {
    var w := WindowSizeOf(Bits.BitCount(x));
    var p := PrefixState(m, ws, one, start, w, x);
    PrefixQuiet(m, ws, one, start, w, x) && (p.st.mode == 2 ==> DrainedQuiet(m, ws, one, w, p, p.st.bitcpy))
  }

  /** Where ws has a zero, so has ws'. */
  ghost predicate Covers(ws: Words, ws': Words) {
    forall i: nat :: (ws.table(i) == 0 ==> ws'.table(i) == 0) && (ws.result(i) == 0 ==> ws'.result(i) == 0)
  }

  lemma StaleCovered(m: Reduction, x: nat, y: nat, word: nat, word': nat)
    requires Stale(m, x, y, word) == 0 && (word == 0 ==> word' == 0)
    ensures Stale(m, x, y, word') == 0
  {
    var w := W(DigitCounts.NumDigits(x) + DigitCounts.NumDigits(y));
    MulZero(w);
    if word > 0 {
      MulMono(1, word, w);
    }
  }

  lemma {:induction false} CellCovered(m: Reduction, ws: Words, ws': Words, one: nat, w: nat, i: nat)
    requires w > 0 && Covers(ws, ws') && CellQuiet(m, ws, one, w, i)
    ensures CellQuiet(m, ws', one, w, i) && CellValue(m, ws', one, w, i) == CellValue(m, ws, one, w, i)
  {
    if i > Pow2(w - 1) {
      CellCovered(m, ws, ws', one, w, i - 1);
      StaleCovered(m, CellValue(m, ws, one, w, i - 1), one, ws.table(i), ws'.table(i));
    }
  }

  lemma AdvanceCovered(m: Reduction, ws: Words, ws': Words, one: nat, w: nat, p: Progress, y: nat)
    requires p.st.bitcpy < w && Covers(ws, ws') && AdvanceQuiet(m, ws, one, w, p, y)
    ensures AdvanceQuiet(m, ws', one, w, p, y) && Advance(m, ws', one, w, p, y) == Advance(m, ws, one, w, p, y)
  {
    var n, bitbuf := p.st.bitcpy + 1, WithBit(p.st, w, y);
    if !(p.st.mode <= 1 && y == 0) && n >= w {
      var e := Prod(p.e, Pow2(w)) + bitbuf;
      CellCovered(m, ws, ws', one, w, bitbuf);
      StaleCovered(m, Squares(m, p.res, w), CellValue(m, ws, one, w, bitbuf), ws.result(e), ws'.result(e));
    }
  }

  lemma {:induction false} PrefixCovered(m: Reduction, ws: Words, ws': Words, one: nat, start: nat, w: nat, pre: nat)
    requires w > 0 && Covers(ws, ws') && PrefixQuiet(m, ws, one, start, w, pre)
    ensures PrefixQuiet(m, ws', one, start, w, pre)
    ensures PrefixState(m, ws', one, start, w, pre) == PrefixState(m, ws, one, start, w, pre)
  {
    if pre > 0 {
      PrefixCovered(m, ws, ws', one, start, w, pre / 2);
      AdvanceCovered(m, ws, ws', one, w, PrefixState(m, ws, one, start, w, pre / 2), pre % 2);
    }
  }

  lemma {:induction false} DrainedCovered(m: Reduction, ws: Words, ws': Words, one: nat, w: nat, p: Progress, x: nat)
    requires Covers(ws, ws') && DrainedQuiet(m, ws, one, w, p, x)
    ensures DrainedQuiet(m, ws', one, w, p, x) && Drained(m, ws', one, w, p, x) == Drained(m, ws, one, w, p, x)
  {
    if x > 0 {
      DrainedCovered(m, ws, ws', one, w, p, x - 1);
      var d := Drained(m, ws, one, w, p, x - 1);
      if (2 * d.bitbuf / Pow2(w)) % 2 != 0 {
        StaleCovered(m, ReducedSquare(m, d.res), one, ws.result(2 * d.e + 1), ws'.result(2 * d.e + 1));
      }
    }
  }

  /** A run that counts no word other than zero is the same with any words that are zero there. */
  lemma PoweredCovered(m: Reduction, ws: Words, ws': Words, one: nat, start: nat, x: nat)
    requires Covers(ws, ws') && Quiet(m, ws, one, start, x)
    ensures Quiet(m, ws', one, start, x) && Powered(m, ws', one, start, x) == Powered(m, ws, one, start, x)
  {
    var w := WindowSizeOf(Bits.BitCount(x));
    PrefixCovered(m, ws, ws', one, start, w, x);
    var p := PrefixState(m, ws, one, start, w, x);
    if p.st.mode == 2 {
      DrainedCovered(m, ws, ws', one, w, p, p.st.bitcpy);
    }
  }

  /** The same word everywhere. */
  function AllWords(word: Word): Words {
    Words(_ => word, _ => word)
  }

  /** With ones everywhere no word is counted: no product of the run that counts takes the comba branch. */
  predicate NeverCopies(m: Reduction, one: nat, start: nat, x: nat) {
    Quiet(m, AllWords(1), one, start, x)
  }

  /** Such a run does not depend on the words at all. */
  lemma NeverCopiesIff(m: Reduction, one: nat, start: nat, x: nat)
    ensures NeverCopies(m, one, start, x) <==> forall ws: Words :: Quiet(m, ws, one, start, x)
    ensures NeverCopies(m, one, start, x) ==>
              forall ws: Words, ws': Words :: Powered(m, ws, one, start, x) == Powered(m, ws', one, start, x)
  {
    if NeverCopies(m, one, start, x) {
      forall ws: Words
        ensures Quiet(m, ws, one, start, x)
             && Powered(m, ws, one, start, x) == Powered(m, AllWords(1), one, start, x)
      {
        PoweredCovered(m, AllWords(1), ws, one, start, x);
      }
    }
  }

  /** No word is counted, or all are zero. */
  ghost predicate Harmless(m: Reduction, ws: Words) {
    !CountsBuffer(m) || Silent(ws)
  }

  lemma StaleHarmless(m: Reduction, ws: Words, x: nat, y: nat, i: nat)
    requires Harmless(m, ws)
    ensures Stale(m, x, y, ws.table(i)) == 0 && Stale(m, x, y, ws.result(i)) == 0
  {
    MulZero(W(DigitCounts.NumDigits(x) + DigitCounts.NumDigits(y)));
  }

  lemma {:induction false} CellHarmless(m: Reduction, ws: Words, one: nat, w: nat, i: nat)
    requires w > 0 && Harmless(m, ws)
    ensures CellQuiet(m, ws, one, w, i)
  {
    if i > Pow2(w - 1) {
      CellHarmless(m, ws, one, w, i - 1);
      StaleHarmless(m, ws, CellValue(m, ws, one, w, i - 1), one, i);
    }
  }

  lemma AdvanceHarmless(m: Reduction, ws: Words, one: nat, w: nat, p: Progress, y: nat)
    requires p.st.bitcpy < w && Harmless(m, ws)
    ensures AdvanceQuiet(m, ws, one, w, p, y)
  {
    var bitbuf := WithBit(p.st, w, y);
    CellHarmless(m, ws, one, w, bitbuf);
    StaleHarmless(m, ws, Squares(m, p.res, w), CellValue(m, ws, one, w, bitbuf), Prod(p.e, Pow2(w)) + bitbuf);
  }

  lemma {:induction false} PrefixHarmless(m: Reduction, ws: Words, one: nat, start: nat, w: nat, pre: nat)
    requires w > 0 && Harmless(m, ws)
    ensures PrefixQuiet(m, ws, one, start, w, pre)
  {
    if pre > 0 {
      PrefixHarmless(m, ws, one, start, w, pre / 2);
      AdvanceHarmless(m, ws, one, w, PrefixState(m, ws, one, start, w, pre / 2), pre % 2);
    }
  }

  lemma {:induction false} DrainedHarmless(m: Reduction, ws: Words, one: nat, w: nat, p: Progress, x: nat)
    requires Harmless(m, ws)
    ensures DrainedQuiet(m, ws, one, w, p, x)
  {
    if x > 0 {
      DrainedHarmless(m, ws, one, w, p, x - 1);
      var d := Drained(m, ws, one, w, p, x - 1);
      StaleHarmless(m, ws, ReducedSquare(m, d.res), one, 2 * d.e + 1);
    }
  }

  lemma HarmlessQuiet(m: Reduction, ws: Words, one: nat, start: nat, x: nat)
    requires Harmless(m, ws)
    ensures Quiet(m, ws, one, start, x)
  {
    var w := WindowSizeOf(Bits.BitCount(x));
    PrefixHarmless(m, ws, one, start, w, x);
    var p := PrefixState(m, ws, one, start, w, x);
    DrainedHarmless(m, ws, one, w, p, p.st.bitcpy);
  }

  /** The other reductions give the same whatever the words are. */
  lemma PoweredIgnores(m: Reduction, ws: Words, ws': Words, one: nat, start: nat, x: nat)
    requires !CountsBuffer(m)
    ensures Powered(m, ws, one, start, x) == Powered(m, ws', one, start, x)
  {
    HarmlessQuiet(m, AllWords(1), one, start, x);
    NeverCopiesIff(m, one, start, x);
  }

  // ----- the exponents

  /**
   What a state means when the bits read so far make the number pre: res holds g^e, and a window of bitcpy bits, at the
   top of bitbuf, holds the rest.
   */
  ghost predicate Meaning(st: State, w: nat, pre: nat, e: nat, win: int) {
    && 2 <= w && st.bitcpy < w
    && (st.mode == 0 ==> pre == 0 && e == 0 && st.bitcpy == 0 && st.bitbuf == 0)
    && (st.mode == 1 ==> e == pre && st.bitcpy == 0 && st.bitbuf == 0)
    && (st.mode == 2 ==>
          && 0 < st.bitcpy && Pow2(st.bitcpy - 1) <= win < Pow2(st.bitcpy)
          && st.bitbuf == win * Pow2(w - st.bitcpy) && pre == e * Pow2(st.bitcpy) + win)
    && st.mode <= 2
  }

  /** One more bit enters the window, which may be full then. */
  lemma WindowGrows(st: State, w: nat, pre: nat, e: nat, win: int, y: nat, st': State) returns (win': int)
    requires Meaning(st, w, pre, e, win) && y <= 1 && (y == 1 || st.mode == 2)
    requires st' == State(2, st.bitcpy + 1, WithBit(st, w, y))
    ensures st'.bitcpy < w ==> Meaning(st', w, 2 * pre + y, e, win')
    ensures st'.bitcpy == w ==> Pow2(w - 1) <= st'.bitbuf < Pow2(w) && e * Pow2(w) + st'.bitbuf == 2 * pre + y
  {
    var n := st.bitcpy;
    if st.mode == 2 {
      win' := 2 * win + y;
      GrowArith(st.bitbuf, win, Pow2(w - (n + 1)), y, pre, e, Pow2(n));
    } else {
      win' := 1;
      assert Pow2(0) == 1 && Pow2(1) == 2;
      FirstBit(pre, e, y);
    }
    WindowHas(w, n + 1, 2 * pre + y, e, win', st'.bitbuf);
  }

  lemma GrowArith(b: int, win: int, p: int, y: int, pre: int, e: int, q: int)
    requires b == win * (2 * p) && pre == e * q + win
    ensures b + y * p == (2 * win + y) * p && 2 * pre + y == e * (2 * q) + (2 * win + y)
  {
  }

  lemma FirstBit(pre: int, e: int, y: int)
    requires pre == e && y == 1
    ensures 2 * pre + y == e * 2 + 1
  {
  }

  lemma WindowHas(w: nat, n: nat, pre: nat, e: nat, win: int, bitbuf: int)
    requires 2 <= w && 0 < n <= w && Pow2(n - 1) <= win < Pow2(n)
    requires bitbuf == win * Pow2(w - n) && pre == e * Pow2(n) + win
    ensures bitbuf >= 0 && (n < w ==> Meaning(State(2, n, bitbuf), w, pre, e, win))
    ensures n == w ==> bitbuf == win
  {
    MulMono(0, win, Pow2(w - n));
  }

  lemma DoubleExponent(e: nat, i: nat)
    ensures e * Pow2(i) >= 0 && 2 * (e * Pow2(i)) == e * Pow2(i + 1)
  {
    MulMono(0, e, Pow2(i));
  }

  ghost predicate SquaresKept(m: Reduction, S: (nat, nat) -> bool) {
    forall v: nat, e: nat {:trigger S(v, e), ReducedSquare(m, v)} :: S(v, e) ==> S(ReducedSquare(m, v), 2 * e)
  }

  ghost predicate ProductsKept(m: Reduction, words: nat -> Word, S: (nat, nat) -> bool) {
    forall v: nat, e: nat, u: nat, f: nat, i: nat {:trigger S(v, e), S(u, f), ReducedProduct(m, v, u, words(i))} ::
      S(v, e) && S(u, f) ==> S(ReducedProduct(m, v, u, words(i)), e + f)
  }

  /** Every square and every product keeps the relation of numbers and exponents. */
  ghost predicate Closed(m: Reduction, ws: Words, S: (nat, nat) -> bool) {
    SquaresKept(m, S) && ProductsKept(m, ws.table, S) && ProductsKept(m, ws.result, S)
  }

  lemma {:induction false} SquaresTrack(m: Reduction, ws: Words, S: (nat, nat) -> bool, v: nat, e: nat, j: nat)
    requires Closed(m, ws, S) && S(v, e)
    ensures e * Pow2(j) >= 0 && S(Squares(m, v, j), e * Pow2(j))
  {
    if j == 0 {
      assert e * Pow2(0) == e;
    } else {
      SquaresTrack(m, ws, S, v, e, j - 1);
      DoubleExponent(e, j - 1);
    }
  }

  lemma {:induction false} CellTracks(m: Reduction, ws: Words, S: (nat, nat) -> bool, one: nat, w: nat, i: nat)
    requires Closed(m, ws, S) && S(one, 1) && w > 0 && Pow2(w - 1) <= i
    ensures S(CellValue(m, ws, one, w, i), i)
  {
    if i == Pow2(w - 1) {
      SquaresTrack(m, ws, S, one, 1, w - 1);
    } else {
      CellTracks(m, ws, S, one, w, i - 1);
      var v, word := CellValue(m, ws, one, w, i - 1), ws.table(i);
      assert S(v, i - 1) && S(one, 1);
      assert S(ReducedProduct(m, v, one, word), i - 1 + 1);
    }
  }

  /** The result stands for the exponent e, and the window for the bits of pre that e does not have. */
  ghost predicate Tracking(S: (nat, nat) -> bool, p: Progress, w: nat, pre: nat) {
    S(p.res, p.e) && p.st.bitcpy < w && Meaning(p.st, w, pre, p.e, pre - p.e * Pow2(p.st.bitcpy))
  }

  /** Every branch of the machine keeps that. */
  lemma AdvanceTracks(m: Reduction, ws: Words, S: (nat, nat) -> bool, one: nat, w: nat, p: Progress, pre: nat, y: nat)
    requires Closed(m, ws, S) && S(one, 1) && Tracking(S, p, w, pre) && y <= 1
    ensures Tracking(S, Advance(m, ws, one, w, p, y), w, 2 * pre + y)
  {
    if y == 0 && p.st.mode <= 1 {
      ZeroBitTracks(m, ws, S, one, w, p, pre);
    } else {
      WindowBitTracks(m, ws, S, one, w, p, pre, y);
    }
  }

  lemma ZeroBitTracks(m: Reduction, ws: Words, S: (nat, nat) -> bool, one: nat, w: nat, p: Progress, pre: nat)
    requires Closed(m, ws, S) && Tracking(S, p, w, pre) && p.st.mode <= 1
    ensures Tracking(S, Advance(m, ws, one, w, p, 0), w, 2 * pre)
  {
    if p.st.mode == 1 {
      assert Pow2(0) == 1;
    }
  }

  lemma WindowBitTracks(m: Reduction, ws: Words, S: (nat, nat) -> bool, one: nat, w: nat, p: Progress, pre: nat, y: nat)
    requires Closed(m, ws, S) && S(one, 1) && Tracking(S, p, w, pre) && y <= 1 && (y == 1 || p.st.mode == 2)
    ensures Tracking(S, Advance(m, ws, one, w, p, y), w, 2 * pre + y)
  {
    var st := p.st;
    var st' := State(2, st.bitcpy + 1, WithBit(st, w, y));
    var win' := WindowGrows(st, w, pre, p.e, pre - p.e * Pow2(st.bitcpy), y, st');
    if st'.bitcpy < w {
      OpenAdvance(m, ws, one, w, p, y, st'.bitbuf);
      OpenWindowTracks(S, st', p.res, p.e, w, 2 * pre + y, win');
    } else {
      FullWindowTracks(m, ws, S, one, w, p.res, p.e, st'.bitbuf);
      FullAdvance(m, ws, one, w, p, y, st'.bitbuf);
    }
  }

  lemma OpenAdvance(m: Reduction, ws: Words, one: nat, w: nat, p: Progress, y: nat, buf: nat)
    requires p.st.bitcpy + 1 < w && (y == 1 || p.st.mode == 2)
    requires buf == WithBit(p.st, w, y)
    ensures Advance(m, ws, one, w, p, y) == Progress(State(2, p.st.bitcpy + 1, buf), p.res, p.e)
  {
  }

  lemma FullAdvance(m: Reduction, ws: Words, one: nat, w: nat, p: Progress, y: nat, buf: nat)
    requires p.st.bitcpy + 1 == w && (y == 1 || p.st.mode == 2) && buf == WithBit(p.st, w, y)
    ensures var e' := Prod(p.e, Pow2(w)) + buf;
            Advance(m, ws, one, w, p, y) ==
            Progress(State(1, 0, 0),
                     ReducedProduct(m, Squares(m, p.res, w), CellValue(m, ws, one, w, buf), ws.result(e')), e')
  {
  }

  lemma OpenWindowTracks(S: (nat, nat) -> bool, st: State, v: nat, e: nat, w: nat, pre: nat, win: int)
    requires S(v, e) && Meaning(st, w, pre, e, win) && st.mode == 2
    ensures Tracking(S, Progress(st, v, e), w, pre)
  {
  }

  /** The full window is squared in, and its cell multiplied in. */
  lemma FullWindowTracks(m: Reduction, ws: Words, S: (nat, nat) -> bool, one: nat, w: nat, v: nat, e: nat, buf: nat)
    requires Closed(m, ws, S) && S(one, 1) && S(v, e) && w >= 2 && Pow2(w - 1) <= buf
    ensures var e' := Prod(e, Pow2(w)) + buf;
            Tracking(S, Progress(State(1, 0, 0),
                                 ReducedProduct(m, Squares(m, v, w), CellValue(m, ws, one, w, buf), ws.result(e')), e'),
                     w, e')
  {
    SquaresTrack(m, ws, S, v, e, w);
    CellTracks(m, ws, S, one, w, buf);
    var e' := Prod(e, Pow2(w)) + buf;
    var x, c, word := Squares(m, v, w), CellValue(m, ws, one, w, buf), ws.result(e');
    assert S(x, Prod(e, Pow2(w))) && S(c, buf);
    EmptyMeans(w, e');
  }

  lemma EmptyMeans(w: nat, pre: nat)
    requires w >= 2
    ensures Meaning(State(1, 0, 0), w, pre, pre, pre - pre * Pow2(0))
  {
    assert Pow2(0) == 1;
  }

  lemma {:induction false} PrefixTracks(m: Reduction, ws: Words, S: (nat, nat) -> bool, one: nat, start: nat, w: nat,
                                     pre: nat)
    requires Closed(m, ws, S) && S(one, 1) && S(start, 0) && w >= 2
    ensures Tracking(S, PrefixState(m, ws, one, start, w, pre), w, pre)
  {
    if pre > 0 {
      PrefixTracks(m, ws, S, one, start, w, pre / 2);
      AdvanceTracks(m, ws, S, one, w, PrefixState(m, ws, one, start, w, pre / 2), pre / 2, pre % 2);
    }
  }

  /** The bits that remain in a window that did not fill up: win / 2^(n - x) of them are in after x steps. */
  lemma RemainingBit(win: nat, n: nat, x: nat, w: nat, bitbuf: nat)
    requires x < n < w && win < Pow2(n) && bitbuf == win * Pow2(w - n + x)
    ensures (2 * bitbuf / Pow2(w)) % 2 == win / Pow2(n - x - 1) % 2
    ensures win / Pow2(n - x - 1) == 2 * (win / Pow2(n - x)) + win / Pow2(n - x - 1) % 2
    ensures 2 * bitbuf == win * Pow2(w - n + x + 1)
  {
    Pow2Add(n - x - 1, w - n + x + 1);
    var p, q := Pow2(n - x - 1), Pow2(w - n + x + 1);
    RemainingArith(win, p, q, 2 * bitbuf);
    assert Pow2(n - x) == 2 * p;
    HalfQuotient(win, p);
  }

  lemma RemainingArith(win: nat, p: nat, q: nat, b: int)
    requires p > 0 && q > 0 && b == win * q
    ensures p * q > 0 && b / (p * q) == win / p
  {
    var y, low := win / p, win % p;
    DivMod(win, p);
    MulLess(0, p, q);
    assert (y * p + low) * q == y * (p * q) + low * q;
    MulMono(low + 1, p, q);
    MulMono(0, low, q);
    DivUnique(b, p * q, y, low * q);
  }

  lemma QuotientsOf(t: int, p: nat, a: int, cur: int)
    requires p > 0 && t == a * (2 * p) + cur && 0 <= cur < 2 * p
    ensures t / (2 * p) == a && t / p == 2 * a + cur / p
  {
    DivUnique(t, 2 * p, a, cur);
    DivMod(cur, p);
    assert a * (2 * p) == (2 * a) * p;
    Distribute(2 * a, cur / p, p);
    DivUnique(t, p, 2 * a + cur / p, cur % p);
  }

  lemma HalfQuotient(x: nat, p: nat)
    requires p > 0
    ensures x / p == 2 * (x / (2 * p)) + x / p % 2
  {
    DivMod(x, 2 * p);
    QuotientsOf(x, p, x / (2 * p), x % (2 * p));
    var cur := x % (2 * p);
    DivMod(cur, p);
    if cur / p > 1 {
      MulMono(2, cur / p, p);
    }
    if cur / p < 0 {
      MulMono(cur / p, -1, p);
    }
    DivUnique(x / p, 2, x / (2 * p), cur / p);
  }

  /** x bits of the leftover window are done: the result stands for the exponent now. */
  ghost predicate Draining(win: nat, n: nat, x: nat, w: nat, e: nat, bitbuf: nat, now: nat) {
    x <= n < w && win < Pow2(n) && bitbuf == win * Pow2(w - n + x) && now == e * Pow2(x) + win / Pow2(n - x)
  }

  lemma DrainStep(win: nat, n: nat, x: nat, w: nat, e: nat, bitbuf: nat, now: nat)
    requires x < n && Draining(win, n, x, w, e, bitbuf, now)
    ensures (2 * bitbuf / Pow2(w)) % 2 <= 1
    ensures Draining(win, n, x + 1, w, e, 2 * bitbuf, 2 * now + (2 * bitbuf / Pow2(w)) % 2)
  {
    RemainingBit(win, n, x, w, bitbuf);
    DoubleExponent(e, x);
  }

  lemma {:induction false} DrainTracks(m: Reduction, ws: Words, S: (nat, nat) -> bool, one: nat, w: nat, p: Progress,
                                       win: nat, x: nat)
    requires Closed(m, ws, S) && S(one, 1) && S(p.res, p.e) && x <= p.st.bitcpy
    requires Draining(win, p.st.bitcpy, 0, w, p.e, p.st.bitbuf, p.e)
    ensures var d := Drained(m, ws, one, w, p, x);
            S(d.res, d.e) && Draining(win, p.st.bitcpy, x, w, p.e, d.bitbuf, d.e)
  {
    if x > 0 {
      DrainTracks(m, ws, S, one, w, p, win, x - 1);
      var d := Drained(m, ws, one, w, p, x - 1);
      DrainStep(win, p.st.bitcpy, x - 1, w, p.e, d.bitbuf, d.e);
      DrainBitTracks(m, ws, S, one, w, d);
    }
  }

  lemma DrainBitTracks(m: Reduction, ws: Words, S: (nat, nat) -> bool, one: nat, w: nat, d: Drain)
    requires Closed(m, ws, S) && S(one, 1) && S(d.res, d.e) && (2 * d.bitbuf / Pow2(w)) % 2 <= 1
    ensures var d' := DrainedBit(m, ws, one, w, d);
            && S(d'.res, d'.e) && d'.bitbuf == 2 * d.bitbuf
            && d'.e == 2 * d.e + (2 * d.bitbuf / Pow2(w)) % 2
  {
    var v, word := ReducedSquare(m, d.res), ws.result(2 * d.e + 1);
    assert S(v, 2 * d.e) && S(one, 1);
    assert S(ReducedProduct(m, v, one, word), 2 * d.e + 1);
  }

  lemma DrainStarts(st: State, w: nat, pre: nat, e: nat, win: int)
    requires Meaning(st, w, pre, e, win) && st.mode == 2
    ensures win >= 0 && Draining(win, st.bitcpy, 0, w, e, st.bitbuf, e)
    ensures forall b: nat, now: nat :: Draining(win, st.bitcpy, st.bitcpy, w, e, b, now) ==> now == pre
  {
    DivUnique(win, Pow2(st.bitcpy), 0, win);
    assert e * Pow2(0) == e;
    assert win / Pow2(0) == win;
  }

  /**
   Whatever relation the start values have to the exponents 0 and 1 and every product and square keeps, the machine's
   result has to the exponent it is asked for.
   */
  lemma PoweredTracks(m: Reduction, ws: Words, S: (nat, nat) -> bool, one: nat, start: nat, x: nat)
    requires Closed(m, ws, S) && S(one, 1) && S(start, 0)
    ensures S(Powered(m, ws, one, start, x), x)
  {
    var w := WindowSizeOf(Bits.BitCount(x));
    var p := PrefixState(m, ws, one, start, w, x);
    PrefixTracks(m, ws, S, one, start, w, x);
    if p.st.mode == 2 {
      var win := x - p.e * Pow2(p.st.bitcpy);
      DrainStarts(p.st, w, x, p.e, win);
      DrainTracks(m, ws, S, one, w, p, win, p.st.bitcpy);
    }
  }
}
