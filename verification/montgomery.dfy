/**
 Montgomery reduction after HAC 14.32: the comba form with deferred carries, the baseline form that reduces x in place,
 and the constants they need.  Both forms refine the same digit-at-a-time function `Redc`.
 */
module Montgomery {
  import opened Arith
  import opened Radix
  import opened Congruences
  import opened MpInts
  import Columns
  import AddSub
  import opened Bits
  import opened Multiply

  // ----- the reduction as a function

  /** The multiple of n that clears the lowest digit of x. */
  function Multiplier(x: nat, rho: nat): (mu: nat)
    ensures mu < BASE
  {
    (x % BASE * rho) % BASE
  }

  /** k rounds: each adds a multiple of n that clears the lowest digit, and drops that digit. */
  function Redc(x: nat, n: nat, rho: nat, k: nat): nat
    decreases k
  {
    if k == 0 then (if x >= n then x - n else x)
    else Redc((x + Multiplier(x, rho) * n) / BASE, n, rho, k - 1)
  }

  /** rho is -1 / n modulo BASE. */
  ghost predicate Rho(n: nat, rho: nat) {
    (rho * n + 1) % BASE == 0
  }

  /** The round is exact. */
  lemma RoundExact(x: nat, n: nat, rho: nat)
    requires Rho(n, rho)
    ensures 0 <= Multiplier(x, rho) * n && (x + Multiplier(x, rho) * n) % BASE == 0
  {
    var d, h := x % BASE, x / BASE;
    var mu := Multiplier(x, rho);
    var j, c := d * rho / BASE, (rho * n + 1) / BASE;
    DivMod(d * rho, BASE);
    DivMod(rho * n + 1, BASE);
    MulMono(0, mu, n);
    ExactTerm(x, d, h, mu, j, c, rho, n);
  }

  lemma ExactTerm(x: int, d: int, h: int, mu: int, j: int, c: int, rho: int, n: int)
    requires x == BASE * h + d && d * rho == j * BASE + mu && rho * n + 1 == c * BASE
    ensures (x + mu * n) % BASE == 0
  {
    assert mu * n == d * (c * BASE - 1) - (j * BASE) * n by {
      assert (d * rho - j * BASE) * n == d * (rho * n) - (j * BASE) * n;
    }
    assert x + mu * n == BASE * (h + d * c - j * n) by {
      assert d * (c * BASE - 1) == BASE * (d * c) - d;
      assert (j * BASE) * n == BASE * (j * n);
    }
    DivUnique(x + mu * n, BASE, h + d * c - j * n, 0);
  }

  /** One round keeps the rest of the computation in range. */
  lemma RoundBound(x: nat, n: nat, mu: nat, s: nat, w: nat)
    requires x < n * (BASE * w + 1) && mu < BASE && x + mu * n == BASE * s
    ensures s < n * (w + 1)
  {
    MulMono(mu, BASE - 1, n);
    assert n * (BASE * w + 1) == BASE * (n * w) + n;
    assert n * (w + 1) == n * w + n;
    assert (BASE - 1) * n == BASE * n - n;
  }

  /** Montgomery's law: the result is below n and is x / BASE^k modulo n. */
  lemma {:induction false} RedcIsReduction(x: nat, n: nat, rho: nat, k: nat)
    requires n > 0 && Rho(n, rho) && x < n * (W(k) + 1)
    ensures Redc(x, n, rho, k) < n && (Redc(x, n, rho, k) * W(k)) % n == x % n
    decreases k
  {
    if k == 0 {
      LastSubtraction(x, n);
    } else {
      var mu := Multiplier(x, rho);
      RoundExact(x, n, rho);
      var s: nat := (x + mu * n) / BASE;
      RoundBound(x, n, mu, s, W(k - 1));
      RedcIsReduction(s, n, rho, k - 1);
      UndoRound(x, mu, n, s, Redc(s, n, rho, k - 1), W(k - 1));
    }
  }

  lemma LastSubtraction(x: nat, n: nat)
    requires n > 0 && x < n * (W(0) + 1)
    ensures var r := if x >= n then x - n else x; r < n && (r * W(0)) % n == x % n
  {
    assert n * (W(0) + 1) == 2 * n;
    if x >= n {
      ReduceTerm(x - n, 1, n);
    }
  }

  lemma UndoRound(x: nat, mu: nat, n: nat, s: nat, r: nat, w: nat)
    requires n > 0 && x + mu * n == BASE * s && (r * w) % n == s % n
    ensures (r * (BASE * w)) % n == x % n
  {
    ScaleCongruence(r * w, s, n, BASE);
    ReduceTerm(x, mu, n);
    assert (r * w) * BASE == r * (BASE * w);
  }

  // ----- constants

  /** Each step of the setup doubles the number of correct low bits of 1 / b. */
  lemma LiftInverse(b: int, x: int, x': int, m: int, wrap: int)
    requires m > 0 && wrap > 0 && wrap % (m * m) == 0 && (b * x - 1) % m == 0
    requires x' == (x * (2 - b * x)) % wrap
    ensures (b * x' - 1) % (m * m) == 0
  {
    var k := (b * x - 1) / m;
    DivMod(b * x - 1, m);
    var y := x * (2 - b * x);
    assert b * y == 1 - (k * k) * (m * m) by {
      assert b * y == (b * x) * (2 - b * x);
      assert (1 + k * m) * (1 - k * m) == 1 - (k * m) * (k * m);
      assert (k * m) * (k * m) == (k * k) * (m * m);
    }
    DivMod(y, wrap);
    DivMod(wrap, m * m);
    var j := wrap / (m * m);
    assert b * x' - 1 == (-(k * k) - (b * (y / wrap)) * j) * (m * m) by {
      assert x' == y - (y / wrap) * (j * (m * m));
      assert b * ((y / wrap) * (j * (m * m))) == ((b * (y / wrap)) * j) * (m * m);
    }
    MulMono(1, m, m);
    DivUnique(b * x' - 1, m * m, -(k * k) - (b * (y / wrap)) * j, 0);
  }

  /** mp_montgomery_setup, on the lowest digit of n; false is MP_VAL. */
  method MontgomerySetup(b: nat) returns (ok: bool, rho: nat)
    requires b < BASE
    ensures ok == (b % 2 == 1) && (ok ==> rho < BASE && Rho(b, rho))
  {
    if b % 2 == 0 {
      return false, 0;
    }
    var x := (((b + 2) / 4 % 2 * 4) * 2 + b) % DIGIT_WRAP;
    StartInverse(b, x);
    var x1 := (x * (2 - b * x)) % DIGIT_WRAP;
    LiftInverse(b, x, x1, 16, DIGIT_WRAP);
    var x2 := (x1 * (2 - b * x1)) % DIGIT_WRAP;
    LiftInverse(b, x1, x2, 0x100, DIGIT_WRAP);
    var x3 := (x2 * (2 - b * x2)) % DIGIT_WRAP;
    LiftInverse(b, x2, x3, 0x10000, DIGIT_WRAP);
    rho := (BASE - x3) % WORD_WRAP % DIGIT_WRAP % BASE;
    NegatedInverse(b, x3, rho);
    return true, rho;
  }

  /** The table-free start value is right modulo 16. */
  lemma StartInverse(b: nat, x: nat)
    requires b < BASE && b % 2 == 1 && x == (b + 2) / 4 % 2 * 8 + b
    ensures (b * x - 1) % 16 == 0
  {
    NibbleBit(b);
    StartDigit(b % 16, (b + 2) / 4 % 2 * 8);
    InverseModSixteen(b / 16, b % 16, (b + 2) / 4 % 2 * 8, b, x);
  }

  lemma NibbleBit(b: nat)
    ensures (b + 2) / 4 % 2 == (b % 16 + 2) / 4 % 2 && b == 16 * (b / 16) + b % 16
    ensures b % 16 % 2 == b % 2
  {
    var r, h := b % 16, b / 16;
    DivUnique(b + 2, 4, 4 * h + (r + 2) / 4, (r + 2) % 4);
    DivUnique((b + 2) / 4, 2, 2 * h + (r + 2) / 4 / 2, (r + 2) / 4 % 2);
    DivUnique(b, 2, 8 * h + r / 2, r % 2);
  }

  lemma InverseModSixteen(h: int, r: int, e: int, b: int, x: int)
    requires b == 16 * h + r && x == 16 * h + r + e && (r * (r + e)) % 16 == 1
    ensures (b * x - 1) % 16 == 0
  {
    assert (16 * h + r) * (16 * h + r + e) == 16 * (16 * (h * h) + h * (2 * r + e)) + r * (r + e);
  }

  lemma StartDigit(r: nat, e: nat)
    requires r < 16 && r % 2 == 1 && e == (r + 2) / 4 % 2 * 8
    ensures (r * (r + e)) % 16 == 1
  {
    if r == 1 {
    } else if r == 3 {
      assert e == 8;
    } else if r == 5 {
      assert e == 8;
    } else if r == 7 {
    } else if r == 9 {
    } else if r == 11 {
      assert e == 8;
    } else if r == 13 {
      assert e == 8;
    } else {
      assert r == 15;
    }
  }

  lemma NegatedInverse(b: int, x: int, rho: int)
    requires (b * x - 1) % 0x1_0000_0000 == 0 && 0 <= x < DIGIT_WRAP && 0 <= b
    requires rho == (BASE - x) % WORD_WRAP % DIGIT_WRAP % BASE
    ensures Rho(b, rho)
  {
    MaskedNegation(x);
    var q, k := (-x) / BASE, (b * x - 1) / 0x1_0000_0000;
    NegatedProduct(b, x, rho, q, k, b * x);
  }

  lemma MaskedNegation(x: int)
    requires 0 <= x < DIGIT_WRAP
    ensures (BASE - x) % WORD_WRAP % DIGIT_WRAP % BASE == (-x) % BASE
  {
    ModMultiple(BASE - x, DIGIT_WRAP, DIGIT_WRAP);
    ModMultiple(BASE - x, BASE, DIGIT_WRAP / BASE);
    DivMod(-x, BASE);
    DivUnique(BASE - x, BASE, (-x) / BASE + 1, (-x) % BASE);
  }

  lemma NegatedProduct(b: int, x: int, rho: int, q: int, k: int, bx: int)
    requires rho == -x - q * BASE && bx == b * x && bx - 1 == k * 0x1_0000_0000
    ensures (rho * b + 1) % BASE == 0
  {
    assert rho * b == -bx - (q * b) * BASE by {
      assert (-x - q * BASE) * b == -(b * x) - (q * b) * BASE;
    }
    DivUnique(rho * b + 1, BASE, -16 * k - q * b, 0);
  }

  lemma OddDigit(b: MpInt)
    requires b.Valid() && b.used > 0
    ensures b.Mag() % 2 == b.dp[0] % 2 && b.Mag() % BASE == b.dp[0]
  {
    assert b.Mag() == b.dp[0] + BASE * Val(b.dp, 1, b.used);
  }

  /** a doubled modulo b. */
  lemma DoubleMod(a: nat, b: nat, e: nat)
    requires b > 0 && a == Pow2(e) % b
    ensures (if 2 * a >= b then 2 * a - b else 2 * a) == Pow2(e + 1) % b
  {
    var q := Pow2(e) / b;
    DivMod(Pow2(e), b);
    assert Pow2(e + 1) == (2 * q) * b + 2 * a;
    if 2 * a >= b {
      Distribute(2 * q, 1, b);
      DivUnique(Pow2(e + 1), b, 2 * q + 1, 2 * a - b);
    } else {
      DivUnique(Pow2(e + 1), b, 2 * q, 2 * a);
    }
  }

  /**
   v is 2^e modulo m, or it is stuck at m: a number that starts at the modulus itself is doubled and has m subtracted
   once, over and over.
   */
  ghost predicate DoublesTo(v: nat, e: nat, m: nat, stuck: bool) {
    if m == 0 then v == Pow2(e) else if stuck then v == m else v == Pow2(e) % m
  }

  /** One doubling step of the normalisation. */
  method DoubleStep(a: MpInt, b: MpInt, ghost e: nat, ghost stuck: bool)
    requires a.Valid() && !a.neg && a.Clean() && b.Valid() && !b.neg && a != b && DoublesTo(a.Mag(), e, b.Mag(), stuck)
    modifies a
    ensures a.Valid() && !a.neg && a.Clean() && DoublesTo(a.Mag(), e + 1, b.Mag(), stuck)
  {
    if b.Mag() > 0 && !stuck {
      DivMod(Pow2(e), b.Mag());
      DoubleMod(a.Mag(), b.Mag(), e);
    }
    Mul2(a, a);
    MagBounds(a);
    var r := CmpMag(a, b);
    if r != -1 {
      UsedMono(b, a);
      AddSub.SSub(a, b, a);
    }
  }

  /** The moduli whose normalisation starts at the modulus: one, and powers of two whose top digit is not full. */
  predicate StartsAtModulus(m: nat) {
    m == 1 || (m >= BASE && BitCount(m) % DIGIT_BIT != 0 && m == Pow2(BitCount(m) - 1))
  }

  /**
   mp_montgomery_calc_normalization: a = BASE^(b->used) mod b, unless the start value is b itself.  When b's top digit
   is full, `bits` is zero and the start value lies one bit below the top digit.
   */
  method CalcNormalization(a: MpInt, b: MpInt)
    requires a.Valid() && a.Clean() && b.Valid() && !b.neg && a != b
    modifies a
    ensures a.Valid() && !a.neg && a.Clean()
    ensures b.Mag() == 0 ==> a.Mag() == BASE
    ensures b.Mag() > 0 && !StartsAtModulus(b.Mag()) ==> a.Mag() == W(b.used) % b.Mag()
    ensures StartsAtModulus(b.Mag()) ==> a.Mag() == b.Mag()
  {
    MagBounds(b);
    ghost var e: nat;
    var bits;
    bits, e := StartDoubling(a, b);
    DoubleUp(a, b, bits - 1, e, StartsAtModulus(b.Mag()));
    WIsPow2(b.used);
    Pow2Digit();
  }

  /** "how many bits of last digit does b use", and the start value 2^e. */
  method StartDoubling(a: MpInt, b: MpInt) returns (bits: int, ghost e: nat)
    requires a.Valid() && b.Valid() && !b.neg && a != b
    modifies a
    ensures 0 <= bits < DIGIT_BIT
    ensures e + (DIGIT_BIT - (bits - 1)) == DIGIT_BIT * if b.used == 0 then 1 else b.used
    ensures a.Valid() && !a.neg && a.Clean() && DoublesTo(a.Mag(), e, b.Mag(), StartsAtModulus(b.Mag()))
  {
    MagBounds(b);
    var count := CountBits(b);
    bits := count % DIGIT_BIT;
    if b.used > 1 {
      e := StartExponent(b.used, count, bits);
      TwoExpt(a, (b.used - 1) * DIGIT_BIT + bits - 1);
      BitCountIs(b.Mag(), count);
      StartValue(b.Mag(), b.used, count, e);
    } else {
      e := 0;
      a.Set(1);
      bits := 1;
      MagBounds(a);
      UsedBelow(b, 1);
      StartAtOne(b.Mag());
    }
  }

  lemma StartAtOne(m: nat)
    requires m < W(1)
    ensures DoublesTo(1, 0, m, StartsAtModulus(m))
  {
    assert Pow2(0) == 1 && W(1) == BASE * W(0);
    if m > 1 {
      DivUnique(1, m, 0, 1);
    }
  }

  lemma StartExponent(used: nat, count: nat, bits: int) returns (e: nat)
    requires used > 1 && DIGIT_BIT * (used - 1) < count <= DIGIT_BIT * used && bits == count % DIGIT_BIT
    ensures e == (used - 1) * DIGIT_BIT + bits - 1 && e < count
  {
    e := (used - 1) * DIGIT_BIT + bits - 1;
  }

  /** "now compute C = A * B mod b": double and reduce until x reaches DIGIT_BIT. */
  method DoubleUp(a: MpInt, b: MpInt, x0: int, ghost e0: nat, ghost stuck: bool)
    requires a.Valid() && !a.neg && a.Clean() && b.Valid() && !b.neg && a != b
    requires DoublesTo(a.Mag(), e0, b.Mag(), stuck) && -1 <= x0 <= DIGIT_BIT
    modifies a
    ensures a.Valid() && !a.neg && a.Clean() && DoublesTo(a.Mag(), e0 + (DIGIT_BIT - x0), b.Mag(), stuck)
  {
    ghost var e := e0;
    var x: int := x0;
    while x < DIGIT_BIT
      invariant x0 <= x <= DIGIT_BIT && e == e0 + (x - x0)
      invariant a.Valid() && !a.neg && a.Clean() && DoublesTo(a.Mag(), e, b.Mag(), stuck)
    {
      DoubleStep(a, b, e, stuck);
      e := e + 1;
      x := x + 1;
    }
  }

  /** The start value is below a modulus of at least two digits, or it is that modulus. */
  lemma StartValue(m: nat, used: nat, count: nat, e: nat)
    requires used > 1 && DIGIT_BIT * (used - 1) < count <= DIGIT_BIT * used && count == BitCount(m)
    requires Pow2(count - 1) <= m < Pow2(count) && e == (used - 1) * DIGIT_BIT + count % DIGIT_BIT - 1
    ensures DoublesTo(Pow2(e), e, m, StartsAtModulus(m))
  {
    Pow2Digit();
    Pow2Mono(DIGIT_BIT, count - 1);
    if count % DIGIT_BIT == 0 {
      FullTop(used, count, e);
      Pow2Mono(e, count - 2);
      assert Pow2(count - 1) == 2 * Pow2(count - 2);
    } else {
      PartialTop(used, count, e);
    }
    if Pow2(e) < m {
      DivUnique(Pow2(e), m, 0, Pow2(e));
    }
  }

  lemma FullTop(used: nat, count: nat, e: int)
    requires used > 1 && DIGIT_BIT * (used - 1) < count <= DIGIT_BIT * used && count % DIGIT_BIT == 0
    requires e == (used - 1) * DIGIT_BIT + count % DIGIT_BIT - 1
    ensures e < count - 1
  {
  }

  lemma PartialTop(used: nat, count: nat, e: int)
    requires used > 1 && DIGIT_BIT * (used - 1) < count <= DIGIT_BIT * used && count % DIGIT_BIT != 0
    requires e == (used - 1) * DIGIT_BIT + count % DIGIT_BIT - 1
    ensures e == count - 1
  {
    DivUnique(count, DIGIT_BIT, used - 1, count - DIGIT_BIT * (used - 1));
  }

  // ----- the comba form

  const MAX_MODULUS: nat := 255   // n->used < 1 << (64 - 2 * DIGIT_BIT)

  lemma ColumnGains(v: int, v': int, w: nat, t: nat, mu: nat, y: nat, vn: nat, p: nat)
    requires v' == v + (w - t) * p && w == t + mu * y
    ensures v' == v + mu * (y * p) && mu * (vn + y * p) == mu * vn + mu * (y * p) >= 0
  {
    assert (mu * y) * p == mu * (y * p);
  }

  /**
   The inner loop of fast_mp_montgomery_reduce: columns ix.. gain mu * n.  No mp_word wraps, as long as every column
   has room for one more product of digits.
   */
  method AddMultiple(w0: seq<nat>, ix: nat, mu: nat, n: MpInt) returns (w: seq<nat>)
    requires n.Clamped() && mu < BASE && ix + n.used <= |w0|
    requires forall k :: ix <= k < |w0| ==> w0[k] + Columns.DIGIT_SQUARE < WORD_WRAP
    ensures |w| == |w0| && forall k :: ix <= k < |w| ==> w[k] <= w0[k] + Columns.DIGIT_SQUARE
    ensures Val(w, ix, |w|) == Val(w0, ix, |w|) + mu * n.Mag()
  {
    w := w0;
    var iy := 0;
    MulZero(mu);
    ghost var gained: nat := 0;
    while iy < n.used
      invariant iy <= n.used && |w| == |w0|
      invariant forall k :: ix <= k < |w| ==> w[k] <= w0[k] + Columns.DIGIT_SQUARE
      invariant forall k :: ix + iy <= k < |w| ==> w[k] == w0[k]
      invariant gained == mu * Val(n.dp, 0, iy)
      invariant Val(w, ix, |w|) == Val(w0, ix, |w|) + gained
    {
      w, gained := AddProduct(w, ix, iy, mu, n.dp, gained);
      iy := iy + 1;
    }
  }

  /** The body of that loop. */
  method AddProduct(w0: seq<nat>, ix: nat, iy: nat, mu: nat, d: seq<nat>, ghost gained: nat)
    returns (w: seq<nat>, ghost gained': nat)
    requires ix + iy < |w0| && iy < |d| && mu < BASE && d[iy] < BASE && w0[ix + iy] + Columns.DIGIT_SQUARE < WORD_WRAP
    requires gained == mu * Val(d, 0, iy)
    ensures |w| == |w0| && (forall k :: 0 <= k < |w| && k != ix + iy ==> w[k] == w0[k])
    ensures w[ix + iy] <= w0[ix + iy] + Columns.DIGIT_SQUARE
    ensures gained' == mu * Val(d, 0, iy + 1) && Val(w, ix, |w|) - gained' == Val(w0, ix, |w0|) - gained
  {
    Columns.DigitProduct(mu, d[iy]);
    var sum: nat := (w0[ix + iy] + mu * d[iy]) % WORD_WRAP;
    w := w0[ix + iy := sum];
    ValSet(w0, ix + iy, sum, ix, |w|);
    ValTop(d, 0, iy);
    ColumnGains(Val(w0, ix, |w|), Val(w, ix, |w|), sum, w0[ix + iy], mu, d[iy], Val(d, 0, iy), W(iy));
    gained' := mu * Val(d, 0, iy + 1);
  }

  /** The columns before round ix: the rest of the value, the rounds still to do, and room in every mp_word. */
  ghost predicate Reducing(w: seq<nat>, ix: nat, n: nat, k: nat, rho: nat, x: nat)
  {
    && ix <= k && |w| == 2 * k + 1
    && w[ix] < BASE + MAX_CARRY + ix * Columns.DIGIT_SQUARE
    && (forall j :: ix < j < |w| ==> w[j] < BASE + ix * Columns.DIGIT_SQUARE)
    && Pending(Val(w, ix, |w|), n, rho, k - ix, x, k)
  }

  /** v with j rounds to go leads where x with k rounds leads, and is in range. */
  ghost predicate Pending(v: nat, n: nat, rho: nat, j: nat, x: nat, k: nat) {
    v < n * (W(j) + 1) && Redc(v, n, rho, j) == Redc(x, n, rho, k)
  }

  lemma PendingStep(v: nat, n: nat, rho: nat, j: nat, x: nat, k: nat, s: nat)
    requires j > 0 && Pending(v, n, rho, j, x, k) && v + Multiplier(v, rho) * n == BASE * s
    ensures Pending(s, n, rho, j - 1, x, k)
  {
    RoundBound(v, n, Multiplier(v, rho), s, W(j - 1));
  }

  /** Passing the carry of a column whose low digit is zero divides the value by BASE. */
  lemma PassCarry(w: seq<nat>, w': seq<nat>, ix: nat)
    requires ix + 1 < |w| == |w'| && Val(w, ix, |w|) % BASE == 0
    requires w' == w[ix + 1 := w[ix + 1] + w[ix] / BASE]
    ensures BASE * Val(w', ix + 1, |w|) == Val(w, ix, |w|)
  {
    LowestOfColumns(w, ix);
    ValSet(w, ix + 1, w'[ix + 1], ix + 1, |w|);
    assert W(0) == 1;
  }

  /** One round of fast_mp_montgomery_reduce, with the carry passed on to the next column. */
  method CombaRound(w0: seq<nat>, ix: nat, n: MpInt, rho: nat, ghost x: nat) returns (w: seq<nat>)
    requires n.Valid() && 0 < n.used <= MAX_MODULUS && ix < n.used && Rho(n.Mag(), rho)
    requires Reducing(w0, ix, n.Mag(), n.used, rho, x)
    ensures Reducing(w, ix + 1, n.Mag(), n.used, rho, x)
  {
    ghost var v, nv := Val(w0, ix, |w0|), n.Mag();
    var mu := ((w0[ix] % BASE) * rho) % BASE;
    LowestOfColumns(w0, ix);
    RoundExact(v, nv, rho);
    w := AddMultiple(w0, ix, mu, n);
    ghost var before := w;
    w := w[ix + 1 := w[ix + 1] + w[ix] / BASE];
    PassCarry(before, w, ix);
    PendingStep(v, nv, rho, n.used - ix, x, n.used, Val(w, ix + 1, |w|));
  }

  lemma LowestOfColumns(w: seq<nat>, ix: nat)
    requires ix < |w|
    ensures Val(w, ix, |w|) % BASE == w[ix] % BASE
  {
    assert Val(w, ix, |w|) == w[ix] + BASE * Val(w, ix + 1, |w|);
  }

  /** rho, computed from the lowest digit, serves the whole number. */
  lemma RhoOfNumber(n: MpInt, rho: nat)
    requires n.Valid() && n.used > 0 && Rho(n.dp[0], rho)
    ensures Rho(n.Mag(), rho)
  {
    var h := Val(n.dp, 1, n.used);
    assert n.Mag() == n.dp[0] + BASE * h;
    LiftRho(n.dp[0], h, n.Mag(), rho);
  }

  lemma LiftRho(d: int, h: int, m: int, rho: int)
    requires m == d + BASE * h && (rho * d + 1) % BASE == 0
    ensures (rho * m + 1) % BASE == 0
  {
    assert rho * m + 1 == rho * d + 1 + (rho * h) * BASE by {
      assert rho * (d + BASE * h) == rho * d + BASE * (rho * h);
    }
    ReduceTerm(rho * d + 1, rho * h, BASE);
  }

  /** The first loops and the rounds: x's digits as columns, then n->used rounds. */
  method CombaRounds(x: MpInt, n: MpInt, rho: nat) returns (w: seq<nat>)
    requires x.Valid() && n.Valid() && 0 < n.used <= MAX_MODULUS && Rho(n.Mag(), rho)
    requires x.Mag() < n.Mag() * (W(n.used) + 1)
    ensures Reducing(w, n.used, n.Mag(), n.used, rho, x.Mag())
  {
    FitsColumns(x, n);
    w := LoadColumns(x, 2 * n.used + 1);
    var ix := 0;
    while ix < n.used
      invariant ix <= n.used && Reducing(w, ix, n.Mag(), n.used, rho, x.Mag())
    {
      w := CombaRound(w, ix, n, rho, x.Mag());
      ix := ix + 1;
    }
  }

  lemma FitsColumns(x: MpInt, n: MpInt)
    requires x.Valid() && n.Valid() && n.used > 0 && x.Mag() < n.Mag() * (W(n.used) + 1)
    ensures x.used <= 2 * n.used + 1
  {
    MagBounds(n);
    WAdd(n.used, n.used);
    RangeOf(x.Mag(), n.Mag(), W(n.used));
    UsedBelow(x, 2 * n.used + 1);
  }

  lemma RangeOf(x: int, n: nat, w: nat)
    requires x < n * (w + 1) && n < w
    ensures x < BASE * (w * w)
  {
    MulMono(n, w, w + 1);
    assert w * (w + 1) == w * w + w;
    MulMono(1, w, w);
  }

  /** The columns W: x's digits, padded with zeros up to n columns. */
  method LoadColumns(x: MpInt, n: nat) returns (w: seq<nat>)
    requires x.Valid() && x.used <= n
    ensures |w| == n && (forall k :: 0 <= k < n ==> w[k] < BASE) && Val(w, 0, n) == x.Mag()
  {
    w := Uninitialised(n);
    var ix := 0;
    while ix < x.used
      invariant ix <= x.used && |w| == n && forall k :: 0 <= k < ix ==> w[k] == x.dp[k]
    {
      w := w[ix := x.dp[ix]];
      ix := ix + 1;
    }
    while ix < n
      invariant x.used <= ix <= n && |w| == n
      invariant forall k :: 0 <= k < ix ==> w[k] == if k < x.used then x.dp[k] else 0
    {
      w := w[ix := 0];
      ix := ix + 1;
    }
    ValSplit(w, 0, x.used, n);
    ValSame(w, x.dp, 0, x.used);
    ValZeros(w, x.used, n);
  }

  /**
   "now fix rest of carries": after column j its low digits and the columns above still make up the same number.
   */
  lemma PropagateOne(w: seq<nat>, w': seq<nat>, j: nat)
    requires j + 1 < |w| == |w'| && w' == w[j + 1 := w[j + 1] + w[j] / BASE]
    ensures Val(w, j, |w|) == w[j] % BASE + BASE * Val(w', j + 1, |w|)
  {
    ValSet(w, j + 1, w'[j + 1], j + 1, |w|);
    assert Val(w, j, |w|) == w[j] + BASE * Val(w, j + 1, |w|);
    assert W(0) == 1;
  }

  /** The digits d and the columns of w from ix up together make up the number all. */
  ghost predicate Emitted(d: seq<nat>, w: seq<nat>, ix: nat, all: nat) {
    Digits(d, |d|) && all == Val(d, 0, |d|) + W(|d|) * Val(w, ix, |w|)
  }

  lemma EmitStep(d: seq<nat>, d': seq<nat>, w: seq<nat>, w': seq<nat>, ix: nat, all: nat)
    requires Emitted(d, w, ix, all) && ix + 1 < |w| == |w'|
    requires d' == d + [w[ix] % BASE] && w' == w[ix + 1 := w[ix + 1] + w[ix] / BASE]
    ensures Emitted(d', w', ix + 1, all)
  {
    PropagateOne(w, w', ix);
    PushDigit(d, w[ix] % BASE);
    NextDigit(Val(d, 0, |d|), W(|d|), w[ix] % BASE, Val(w', ix + 1, |w|));
  }

  lemma PushDigit(d: seq<nat>, x: nat)
    ensures Val(d + [x], 0, |d| + 1) == Val(d, 0, |d|) + x * W(|d|)
  {
    ValTop(d + [x], 0, |d|);
    ValSame(d, d + [x], 0, |d|);
  }

  lemma EmitLast(d: seq<nat>, w: seq<nat>, ix: nat, all: nat)
    requires Emitted(d, w, ix, all) && ix + 1 == |w| && all < W(|d| + 1)
    ensures w[ix] < BASE && Val(d + [w[ix]], 0, |d| + 1) == all
  {
    PushDigit(d, w[ix]);
    assert Val(w, ix, |w|) == w[ix];
    LastDigit(Val(d, 0, |d|), W(|d|), w[ix], all);
  }

  /** The carry loop and the copy-out loop: the digits of the number the columns from k up stand for. */
  method Propagate(w0: seq<nat>, k: nat) returns (d: seq<nat>)
    requires k < |w0| && Val(w0, k, |w0|) < W(|w0| - k)
    requires forall j :: k <= j < |w0| ==> w0[j] < WORD_WRAP - MAX_CARRY
    ensures |d| == |w0| - k && Digits(d, |d|) && Val(d, 0, |d|) == Val(w0, k, |w0|)
  {
    var w: seq<nat> := w0;
    d := [];
    var ix: nat := k;
    ghost var all: nat := Val(w0, k, |w0|);
    StartEmit(w, k);
    while ix + 1 < |w0|
      invariant k <= ix < |w0| == |w| && |d| == ix - k
      invariant w[ix] < WORD_WRAP && forall j :: ix < j < |w| ==> w[j] == w0[j]
      invariant Emitted(d, w, ix, all)
    {
      d, w := PropagateStep(d, w, ix, all);
      ix := ix + 1;
    }
    d := LastStep(d, w, ix, all);
  }

  /** The last column holds no more than a digit. */
  method LastStep(d0: seq<nat>, w: seq<nat>, ix: nat, ghost all: nat) returns (d: seq<nat>)
    requires Emitted(d0, w, ix, all) && ix + 1 == |w| && all < W(|d0| + 1)
    ensures |d| == |d0| + 1 && Digits(d, |d|) && Val(d, 0, |d|) == all
  {
    EmitLast(d0, w, ix, all);
    var last: nat := w[ix] % DIGIT_WRAP % BASE;
    assert last == w[ix];
    d := d0 + [last];
  }

  lemma StartEmit(w: seq<nat>, k: nat)
    requires k < |w|
    ensures Emitted([], w, k, Val(w, k, |w|))
  {
  }

  /** The bodies of the carry loop and of the copy-out loop, for one column. */
  method PropagateStep(d0: seq<nat>, w0: seq<nat>, ix: nat, ghost all: nat) returns (d: seq<nat>, w: seq<nat>)
    requires ix + 1 < |w0| && w0[ix] < WORD_WRAP && w0[ix + 1] < WORD_WRAP - MAX_CARRY && Emitted(d0, w0, ix, all)
    ensures |d| == |d0| + 1 && |w| == |w0| && w[ix + 1] < WORD_WRAP && Emitted(d, w, ix + 1, all)
    ensures forall j :: ix + 1 < j < |w| ==> w[j] == w0[j]
  {
    CarryWord(w0[ix], w0[ix + 1]);
    d := d0 + [w0[ix] % DIGIT_WRAP % BASE];
    w := w0[ix + 1 := (w0[ix + 1] + w0[ix] / BASE) % WORD_WRAP];
    EmitStep(d0, d, w0, w, ix, all);
  }

  lemma CarryWord(x: nat, y: nat)
    requires x < WORD_WRAP && y < WORD_WRAP - MAX_CARRY
    ensures (y + x / BASE) % WORD_WRAP == y + x / BASE && x % DIGIT_WRAP % BASE == x % BASE
  {
    ModMultiple(x, BASE, DIGIT_WRAP / BASE);
    DivMod(x, BASE);
    DivUnique(y + x / BASE, WORD_WRAP, 0, y + x / BASE);
  }

  lemma NextDigit(v: nat, p: nat, d: nat, rest: nat)
    ensures v + p * (d + BASE * rest) == (v + d * p) + (BASE * p) * rest
  {
    assert p * (d + BASE * rest) == d * p + (BASE * p) * rest;
  }

  lemma LastDigit(v: nat, p: nat, d: nat, all: int)
    requires all == v + p * d && all < BASE * p && p > 0
    ensures d < BASE && d * p == p * d
  {
    if d >= BASE {
      MulMono(BASE, d, p);
    }
  }

  /** fast_mp_montgomery_reduce: x becomes its Montgomery reduction modulo n. */
  method FastMontgomeryReduce(x: MpInt, n: MpInt, rho: nat)
    requires x.Valid() && n.Valid() && x != n && 0 < n.used <= MAX_MODULUS && Rho(n.dp[0], rho)
    requires x.Mag() < n.Mag() * (W(n.used) + 1)
    modifies x
    ensures x.Valid() && x.Mag() == Redc(old(x.Mag()), n.Mag(), rho, n.used)
    ensures (!old(x.neg) ==> !x.neg) && ZeroReads(x)
  {
    RhoOfNumber(n, rho);
    var olduse := x.used;
    var w := CombaRounds(x, n, rho);
    AfterRounds(w, n, rho, x.Mag());
    var d := Propagate(w, n.used);
    x.Grow(n.used + 1);
    StoreDigits(x, d, n.used + 1, olduse);
    FinalSubtract(x, n);
  }

  lemma AfterRounds(w: seq<nat>, n: MpInt, rho: nat, x: nat)
    requires n.Valid() && 0 < n.used <= MAX_MODULUS && Reducing(w, n.used, n.Mag(), n.used, rho, x)
    ensures |w| == 2 * n.used + 1 && Val(w, n.used, |w|) < W(n.used + 1)
    ensures forall j :: n.used <= j < |w| ==> w[j] < WORD_WRAP - MAX_CARRY
    ensures Redc(x, n.Mag(), rho, n.used) == Redc(Val(w, n.used, |w|), n.Mag(), rho, 0)
  {
    MagBounds(n);
    RestFits(Val(w, n.used, |w|), n.Mag());
  }

  lemma RestFits(v: nat, m: nat)
    requires v < m * (W(0) + 1)
    ensures v < 2 * m
  {
    assert m * (W(0) + 1) == 2 * m;
  }

  /** Copy the digits into x, clear what was above them, clamp. */
  method StoreDigits(x: MpInt, d: seq<nat>, used: nat, olduse: nat)
    requires |d| == used <= |x.dp| && Digits(d, used) && olduse <= |x.dp|
    modifies x
    ensures x.Valid() && x.Mag() == Val(d, 0, used) && x.neg == (old(x.neg) && x.used > 0)
    ensures used > 0 ==> ZeroReads(x)
  {
    var ix := 0;
    while ix < used
      invariant ix <= used && |x.dp| == |old(x.dp)| && x.neg == old(x.neg)
      invariant forall k :: 0 <= k < ix ==> x.dp[k] == d[k]
    {
      x.dp := x.dp[ix := d[ix]];
      ix := ix + 1;
    }
    x.used := used;
    ValSame(x.dp, d, 0, used);
    x.Settle(x.used, olduse);
  }

  /** "if A >= m then A = A - m" */
  method FinalSubtract(x: MpInt, n: MpInt)
    requires x.Valid() && n.Valid() && x != n && 0 < n.used
    modifies x
    ensures x.Valid() && x.Mag() == (if old(x.Mag()) >= n.Mag() then old(x.Mag()) - n.Mag() else old(x.Mag()))
    ensures x.neg == (old(x.neg) && x.used > 0)
    ensures (old(x.Clean()) ==> x.Clean()) && (old(ZeroReads(x)) ==> ZeroReads(x))
  {
    var r := CmpMag(x, n);
    if r != -1 {
      AddSub.SSub(x, n, x);
    }
  }

  // ----- the baseline form

  /** Words that are proper digits except between what the rounds have reached so far and the last they will reach. */
  ghost predicate Settled(t: seq<nat>, ix: nat, k: nat) {
    MachineWords(t) && forall j :: 0 <= j < |t| && ((ix > 0 && j < ix + k - 1) || j >= 2 * k - 1) ==> t[j] < BASE
  }

  /**
   The words t hold W(ix) times the value s that ix rounds have left.  If they started as proper digits, s leads where x
   leads.
   */
  ghost predicate InPlace(t: seq<nat>, ix: nat, s: nat, n: nat, k: nat, rho: nat, x: nat, exact: bool) {
    && ix <= k && 2 * k + 1 <= |t| && Settled(t, ix, k)
    && (forall j :: 2 * k + 1 <= j < |t| ==> t[j] == 0)
    && Val(t, 0, |t|) == W(ix) * s && s < n * (W(k - ix) + 1)
    && (exact ==> Digits(t, |t|) && Pending(s, n, rho, k - ix, x, k))
  }

  /** The word that a round clears has the lowest digit of what is left. */
  lemma CurrentDigit(t: seq<nat>, ix: nat, s: nat)
    requires ix < |t| && Digits(t, ix) && Val(t, 0, |t|) == W(ix) * s
    ensures t[ix] % BASE == s % BASE
  {
    ValSplit(t, 0, ix, |t|);
    ValBound(t, 0, ix);
    SameQuotient(Val(t, 0, ix), W(ix), Val(t, ix, |t|), s);
    LowestOfColumns(t, ix);
  }

  /** The multiplier is the one of the value that is left. */
  lemma MultiplierOf(d: nat, s: nat, rho: nat)
    requires d % BASE == s % BASE
    ensures d * rho >= 0 && (d * rho) % BASE == Multiplier(s, rho)
  {
    MulMono(0, d, rho);
    RemainderIs(s, BASE);
    ScaleCongruence(d, s % BASE, BASE, rho);
  }

  lemma SameQuotient(low: nat, w: nat, q: nat, s: nat)
    requires low < w && low + w * q == w * s
    ensures q == s
  {
    DivUnique(w * s, w, q, low);
    DivUnique(w * s, w, s, 0);
  }

  /** Everything the rounds add up to stays below 2k + 1 digits. */
  lemma StaysInside(v: int, n: nat, k: nat, ix: nat, mu: nat, all: int)
    requires ix < k && n < W(k) && 0 <= v < n * (W(k - ix) + 1) && mu < BASE && all == W(ix) * (v + mu * n)
    ensures all < W(2 * k + 1)
  {
    WAdd(ix, k - ix);
    WAdd(k, k);
    WMono(ix, k - 1);
    InsideArith(v, n, W(ix), W(k - ix), W(k), W(k - 1), mu, all);
  }

  lemma InsideArith(v: int, n: nat, wi: nat, wr: nat, w: nat, w1: nat, mu: nat, all: int)
    requires n < w && v < n * (wr + 1) && mu < BASE && wi * wr == w == BASE * w1 && wi <= w1 && wi > 0
    requires all == wi * (v + mu * n)
    ensures all < BASE * (w * w)
  {
    InsideRound(v, n, wr, mu, v + mu * n);
    InsideWeight(v + mu * n, n, wi, wr, w, w1, all);
    MulMono(n + 1, w, w);
    MulMono(0, w, w);
  }

  lemma InsideRound(v: int, n: nat, wr: nat, mu: nat, x: int)
    requires v < n * (wr + 1) && mu < BASE && x == v + mu * n
    ensures x < n * wr + BASE * n
  {
    MulMono(mu, BASE - 1, n);
    assert n * (wr + 1) == n * wr + n;
  }

  lemma InsideWeight(x: int, n: nat, wi: nat, wr: nat, w: nat, w1: nat, all: int)
    requires x < n * wr + BASE * n && wi * wr == w == BASE * w1 && 0 < wi <= w1 && all == wi * x
    ensures all < 2 * (n * w)
  {
    MulMono(x + 1, n * wr + BASE * n, wi);
    assert (n * wr + BASE * n) * wi == n * (wi * wr) + BASE * (wi * n);
    assert (x + 1) * wi == wi * x + wi;
    MulMono(wi, w1, n);
    assert BASE * (w1 * n) == n * (BASE * w1);
  }

  /** One round of the baseline form. */
  method BaselineRound(t0: seq<nat>, ix: nat, n: MpInt, rho: nat, ghost s: nat, ghost x: nat, ghost exact: bool)
    returns (t: seq<nat>, ghost s': nat)
    requires n.Valid() && 0 < n.used && ix < n.used && Rho(n.Mag(), rho)
    requires InPlace(t0, ix, s, n.Mag(), n.used, rho, x, exact)
    ensures |t| == |t0| && InPlace(t, ix + 1, s', n.Mag(), n.used, rho, x, exact)
  {
    var k := n.used;
    ghost var m := n.Mag();
    CurrentDigit(t0, ix, s);
    MultiplierOf(t0[ix], s, rho);
    var mu := (t0[ix] * rho) % BASE;
    RoundExact(s, m, rho);
    ghost var s1: nat := (s + mu * m) / BASE;
    var u;
    t, u := MulAddRow(t0, ix, mu, n, 0, k);
    MagBounds(n);
    ghost var all: int := W(ix) * (s + mu * m);
    StaysInside(s, m, k, ix, mu, all);
    RoundTotal(W(ix), s, mu, m, s1, all);
    ghost var lost;
    t, lost := CarryUp(t, ix + k, u, 2 * k + 1, all);
    s' := LostMultiple(Val(t, 0, |t|), lost, ix, k, s1, all);
    RoundBound(s, m, mu, s1, W(k - ix - 1));
    if exact {
      PendingStep(s, m, rho, k - ix, x, k, s1);
    }
  }

  /** What wraps around is a multiple of what has been cleared. */
  lemma LostMultiple(v: nat, lost: nat, ix: nat, k: nat, s1: nat, all: int) returns (s: nat)
    requires ix < k && lost * W(ix + k) >= 0 && v + lost * W(ix + k) == all == W(ix + 1) * s1
    ensures s <= s1 && v == W(ix + 1) * s && (lost == 0 ==> s == s1)
  {
    WAdd(ix + 1, k - 1);
    s := LostArith(v, lost, W(ix + 1), W(k - 1), s1);
  }

  lemma LostArith(v: nat, lost: nat, w: nat, h: nat, s1: nat) returns (s: nat)
    requires w > 0 && v + lost * (w * h) == w * s1
    ensures s <= s1 && v == w * s && (lost == 0 ==> s == s1)
  {
    var d := lost * h;
    MulMono(0, lost, h);
    assert lost * (w * h) == w * d;
    Distribute(s1, -d, w);
    if d > s1 {
      MulLess(s1, d, w);
    }
    s := s1 - d;
    MulZero(h);
  }

  lemma RoundTotal(w: nat, s: nat, mu: nat, n: nat, s': nat, all: int)
    requires s + mu * n == BASE * s' && all == w * (s + mu * n)
    ensures all == (BASE * w) * s' && all == w * s + mu * (w * n) && all >= 0
  {
    assert w * (BASE * s') == (BASE * w) * s';
    assert w * (mu * n) == mu * (w * n);
  }

  /** The round loop of mp_montgomery_reduce. */
  method BaselineRounds(t0: seq<nat>, n: MpInt, rho: nat, ghost x: nat, ghost exact: bool)
    returns (t: seq<nat>, ghost s: nat)
    requires n.Valid() && 0 < n.used && Rho(n.Mag(), rho) && x < n.Mag() * (W(n.used) + 1)
    requires InPlace(t0, 0, x, n.Mag(), n.used, rho, x, exact)
    ensures |t| == |t0| && InPlace(t, n.used, s, n.Mag(), n.used, rho, x, exact)
  {
    t, s := t0, x;
    var ix := 0;
    while ix < n.used
      invariant ix <= n.used && |t| == |t0| && InPlace(t, ix, s, n.Mag(), n.used, rho, x, exact)
    {
      t, s := BaselineRound(t, ix, n, rho, s, x, exact);
      ix := ix + 1;
    }
  }

  /** Everything in x's buffer makes up a number in range; only below 2k - 1 may there be a word that is no digit. */
  ghost predicate Reducible(x: MpInt, n: MpInt)
    requires n.used <= |n.dp|
    reads x, n
  {
    Settled(x.dp, 0, n.used) && Val(x.dp, 0, |x.dp|) < n.Mag() * (W(n.used) + 1)
  }

  /** "grow the input as required", and use all of its 2k + 1 digits. */
  method Widen(x: MpInt, n: MpInt)
    requires x.Valid() && n.Valid() && x != n && 0 < n.used && Reducible(x, n)
    modifies x
    ensures x.used == n.used * 2 + 1 <= |x.dp| && x.neg == old(x.neg)
    ensures Settled(x.dp, 0, n.used) && Val(x.dp, 0, |x.dp|) == Val(old(x.dp), 0, |old(x.dp)|)
    ensures old(Digits(x.dp, |x.dp|)) ==> Digits(x.dp, |x.dp|)
    ensures forall j :: 2 * n.used + 1 <= j < |x.dp| ==> x.dp[j] == 0
  {
    var digs := n.used * 2 + 1;
    x.Grow(digs);
    StartInPlace(old(x.dp), x.dp, n);
    x.used := digs;
  }

  /**
   The baseline form, in place.  It counts every word in x's buffer, also those above `used`; on a clean x they are
   zero and this is the reduction of x.  A word above `used` that is no digit may lose part of its value, but the
   result is still a number below n.
   */
  method BaselineReduce(x: MpInt, n: MpInt, rho: nat)
    requires x.Valid() && n.Valid() && x != n && 0 < n.used && Rho(n.Mag(), rho) && Reducible(x, n)
    modifies x
    ensures x.Valid() && x.Clean() && |x.dp| > 0 && x.Mag() < n.Mag()
    ensures old(Digits(x.dp, |x.dp|)) ==> x.Mag() == Redc(old(Val(x.dp, 0, |x.dp|)), n.Mag(), rho, n.used)
    ensures !old(x.neg) ==> !x.neg
  {
    ghost var all := Val(x.dp, 0, |x.dp|);
    ghost var exact := Digits(x.dp, |x.dp|);
    Widen(x, n);
    var t;
    ghost var s;
    t, s := BaselineRounds(x.dp, n, rho, all, exact);
    x.dp := t;
    FinishBaseline(x, n, s);
  }

  lemma StartInPlace(s: seq<nat>, t: seq<nat>, n: MpInt)
    requires n.Valid() && n.used > 0 && Settled(s, 0, n.used) && Val(s, 0, |s|) < n.Mag() * (W(n.used) + 1)
    requires |t| >= |s| && |t| >= 2 * n.used + 1 && forall k :: 0 <= k < |t| ==> t[k] == if k < |s| then s[k] else 0
    ensures Settled(t, 0, n.used) && Val(t, 0, |t|) == Val(s, 0, |s|) && (Digits(s, |s|) ==> Digits(t, |t|))
    ensures forall k :: 2 * n.used + 1 <= k < |t| ==> t[k] == 0
  {
    ValSplit(t, 0, |s|, |t|);
    ValZeros(t, |s|, |t|);
    ValSame(s, t, 0, |s|);
    MulZero(W(|s|));
    MagBounds(n);
    WAdd(n.used, n.used);
    RangeOf(Val(t, 0, |t|), n.Mag(), W(n.used));
    forall k | 2 * n.used + 1 <= k < |t| ensures t[k] == 0 {
      DigitInRange(t, k, 2 * n.used + 1);
    }
  }

  /** A number below W(m) has no digit at m or above. */
  lemma DigitInRange(t: seq<nat>, k: nat, m: nat)
    requires m <= k < |t| && Val(t, 0, |t|) < W(m)
    ensures t[k] == 0
  {
    ValSplit(t, 0, k + 1, |t|);
    LowAtMost(Val(t, 0, |t|), Val(t, 0, k + 1), W(k + 1), Val(t, k + 1, |t|));
    if t[k] != 0 {
      ValAtLeast(t, 0, k + 1);
      WMono(m, k);
    }
  }

  lemma LowAtMost(v: int, low: nat, w: nat, h: nat)
    requires v == low + w * h
    ensures v >= low
  {
  }

  /** The digits of a clean number are all it has. */
  lemma CleanDigits(x: MpInt)
    requires x.Proper() && x.Clean()
    ensures Digits(x.dp, |x.dp|) && Val(x.dp, 0, |x.dp|) == x.Mag()
  {
    ValSplit(x.dp, 0, x.used, |x.dp|);
    ValZeros(x.dp, x.used, |x.dp|);
    MulZero(W(x.used));
  }

  /**
   Why the baseline form needs a clean number: one digit left over above `used`, whatever its place, always gives the
   residue of another number.
   */
  lemma StaleDigitSpoils(x: nat, d: nat, place: nat, n: nat, rho: nat, k: nat)
    requires n % 2 == 1 && n >= BASE && Rho(n, rho) && 0 < d < BASE
    requires d * W(place) >= 0 && x + d * W(place) < n * (W(k) + 1)
    ensures (Redc(x + d * W(place), n, rho, k) * W(k)) % n != x % n
  {
    RedcIsReduction(x + d * W(place), n, rho, k);
    if (x + d * W(place)) % n == x % n {
      DifferenceMultiple(x + d * W(place), x, n);
      WIsPow2(place);
      Pow2Inverse(DIGIT_BIT * place, n);
      MulZero(W(place));
      DivUnique(0, n, 0, 0);
      CancelFactor(d, 0, W(place), Pow((n + 1) / 2, DIGIT_BIT * place), n);
      DivUnique(d, n, 0, d);
    }
  }

  /** "x = x / b**n.used" and the last subtraction. */
  method FinishBaseline(x: MpInt, n: MpInt, ghost s: nat)
    requires n.Valid() && x != n && x.used == 2 * n.used + 1 <= |x.dp| && Digits(x.dp, |x.dp|) && x.Clean()
    requires Val(x.dp, 0, |x.dp|) == W(n.used) * s && s < n.Mag() * (W(0) + 1)
    modifies x
    ensures x.Valid() && x.Clean() && |x.dp| > 0 && x.Mag() == Redc(s, n.Mag(), 0, 0) && x.Mag() < n.Mag()
    ensures !old(x.neg) ==> !x.neg
  {
    ValSplit(x.dp, 0, x.used, |x.dp|);
    ValZeros(x.dp, x.used, |x.dp|);
    MulZero(W(x.used));
    x.Clamp();
    DivUnique(x.Mag(), W(n.used), s, 0);
    Rshd(x, n.used);
    assert n.Mag() * (W(0) + 1) == 2 * n.Mag();
    FinalSubtract(x, n);
  }

  lemma RedcBelow(x: nat, n: MpInt, rho: nat)
    requires n.Valid() && n.used > 0 && Rho(n.Mag(), rho) && x < n.Mag() * (W(n.used) + 1)
    ensures Redc(x, n.Mag(), rho, n.used) < n.Mag()
  {
    MagBounds(n);
    RedcIsReduction(x, n.Mag(), rho, n.used);
  }

  /**
   mp_montgomery_reduce: the comba form when its columns suffice, else the baseline form; the same result either way,
   if the buffer holds nothing above `used`.
   */
  method MontgomeryReduce(x: MpInt, n: MpInt, rho: nat)
    requires x.Valid() && n.Valid() && x != n && 0 < n.used && Rho(n.dp[0], rho)
    requires if n.used <= MAX_MODULUS then x.Mag() < n.Mag() * (W(n.used) + 1) else Reducible(x, n)
    modifies x
    ensures x.Valid() && x.Mag() < n.Mag() && (!old(x.neg) ==> !x.neg) && ZeroReads(x)
    ensures n.used > MAX_MODULUS ==> x.Clean()
    ensures n.used <= MAX_MODULUS || old(x.Clean()) ==> x.Mag() == Redc(old(x.Mag()), n.Mag(), rho, n.used)
    ensures n.used > MAX_MODULUS && old(Digits(x.dp, |x.dp|)) ==>
              x.Mag() == Redc(old(Val(x.dp, 0, |x.dp|)), n.Mag(), rho, n.used)
  {
    RhoOfNumber(n, rho);
    if n.used * 2 + 1 < MP_WARRAY && n.used < MAX_COMBA {
      RedcBelow(x.Mag(), n, rho);
      FastMontgomeryReduce(x, n, rho);
    } else {
      if x.Clean() {
        CleanDigits(x);
      }
      BaselineReduce(x, n, rho);
    }
  }
}
