/** Operations by a single digit, and by powers of two: the short carry loops. */
module SingleDigit {
  import opened Arith
  import opened Radix
  import opened MpInts
  import AddSub

  // ----- upward loops: multiply by a digit

  /** c holds the first i digits of m * a, up to the carry u. */
  ghost predicate Scaled(c: seq<nat>, a: seq<nat>, m: nat, i: nat, u: nat)
    requires i <= |c| && i <= |a|
  {
    Digits(c, i) && Val(c, 0, i) + u * W(i) == m * Val(a, 0, i)
  }

  lemma ScaleStep(p: nat, x: nat, m: nat, u: nat, d: nat, u': nat, vc: int, va: int, vc': int)
    requires x * m + u == d + BASE * u' && vc + u * p == m * va && vc' == vc + d * p
    ensures vc' + u' * (BASE * p) == m * (va + x * p)
  {
    assert (x * m + u) * p == (d + BASE * u') * p;
    assert m * (va + x * p) == m * va + (x * m) * p;
  }

  lemma ScaleColumn(c: seq<nat>, c': seq<nat>, a: seq<nat>, m: nat, i: nat, u: nat, u': nat)
    requires i < |c| && i < |c'| && i < |a| && Scaled(c, a, m, i, u)
    requires forall k :: 0 <= k < i ==> c'[k] == c[k]
    requires a[i] * m + u == c'[i] + BASE * u' && c'[i] < BASE
    ensures Scaled(c', a, m, i + 1, u')
  {
    ValSame(c, c', 0, i);
    ValTop(c', 0, i);
    ValTop(a, 0, i);
    ScaleStep(W(i), a[i], m, u, c'[i], u', Val(c, 0, i), Val(a, 0, i), Val(c', 0, i + 1));
  }

  /** The carry of a digit product is a digit. */
  lemma ProductWord(x: nat, m: nat, u: nat)
    requires x < BASE && m < BASE && u < BASE
    ensures 0 <= x * m && x * m + u < BASE * BASE
    ensures (x * m + u) / BASE < BASE
  {
    MulMono(0, x, m);
    MulMono(x, BASE - 1, m);
    MulMono(m, BASE - 1, BASE - 1);
  }

  /** mp_mul_d: c = a * b for one digit b; c may be a. */
  method MulD(a: MpInt, b: nat, c: MpInt)
    requires a.Valid() && c.used <= |c.dp| && b < BASE
    modifies c
    ensures c.Valid() && c.Value() == old(a.Value()) * b && c.Mag() == b * old(a.Mag())
    ensures c.used <= old(a.used) + 1 <= |c.dp|
    ensures old(c.Clean()) ==> c.Clean()
  {
    ghost var A := a.dp;
    var n, sign := a.used, a.neg;
    c.Grow(n + 1);
    var olduse := c.used;
    c.neg := sign;
    var u := ScaleLoop(a, b, c, n, A);
    c.used := n + 1;
    AddSub.StoreCarry(c, n, u, olduse);
    SignedProduct(old(a.Mag()), b, sign);
  }

  lemma SignedProduct(m: int, b: int, neg: bool)
    requires 0 <= m && 0 <= b
    ensures m * b == b * m && 0 <= m * b
    ensures (if neg then -m else m) * b == if neg then -(m * b) else m * b
    ensures m * b == 0 ==> (if neg then -m else m) * b == 0
  {
  }

  /** The digit loop of mp_mul_d. */
  method ScaleLoop(a: MpInt, b: nat, c: MpInt, n: nat, ghost A: seq<nat>) returns (u: nat)
    requires n <= |A| && n < |c.dp| && Digits(A, n) && b < BASE
    requires n <= |a.dp| && forall k :: 0 <= k < n ==> a.dp[k] == A[k]
    modifies c`dp
    ensures u < BASE && |c.dp| == |old(c.dp)| && Scaled(c.dp, A, b, n, u)
    ensures forall k :: n <= k < |c.dp| ==> c.dp[k] == old(c.dp)[k]
  {
    u := 0;
    var ix := 0;
    while ix < n
      invariant ix <= n && u < BASE && |c.dp| == |old(c.dp)|
      invariant n <= |a.dp| && forall k :: ix <= k < n ==> a.dp[k] == A[k]
      invariant forall k :: n <= k < |c.dp| ==> c.dp[k] == old(c.dp)[k]
      invariant Scaled(c.dp, A, b, ix, u)
    {
      ProductWord(A[ix], b, u);
      ghost var before, u0 := c.dp, u;
      var r := u + a.dp[ix] * b;
      c.dp := c.dp[ix := r % BASE];
      u := r / BASE;
      ScaleColumn(before, c.dp, A, b, ix, u0, u);
      ix := ix + 1;
    }
  }

  lemma Pow2Split(d: nat)
    requires d <= DIGIT_BIT
    ensures Pow2(d) * Pow2(DIGIT_BIT - d) == BASE && Pow2(d) <= BASE && Pow2(DIGIT_BIT - d) <= BASE
    ensures d > 0 ==> Pow2(DIGIT_BIT - d) < BASE
  {
    Pow2Digit();
    Pow2Add(d, DIGIT_BIT - d);
    Pow2Mono(d, DIGIT_BIT);
    Pow2Mono(DIGIT_BIT - d, DIGIT_BIT);
    if d > 0 {
      Pow2Mono(DIGIT_BIT - d, DIGIT_BIT - 1);
    }
  }

  /** Shifting a digit up by d bits: the bits that leave it and the ones that stay. */
  lemma ShiftWord(x: nat, p: nat, q: nat, r: nat)
    requires p * q == BASE && x < BASE && r < p && q > 0
    ensures x / q < p && 0 <= x * p
    ensures (x * p) % DIGIT_WRAP % BASE + r < BASE
    ensures x * p + r == (x * p) % DIGIT_WRAP % BASE + r + BASE * (x / q)
  {
    DivMod(x, q);
    ShiftSplit(x, x / q, x % q, p, q);
    DivUnique(x * p, BASE, x / q, (x % q) * p);
    ModWrap(x * p);
  }

  lemma ShiftSplit(x: nat, hi: int, lo: int, p: nat, q: nat)
    requires p * q == BASE && x < BASE && 0 <= lo < q && x == hi * q + lo
    ensures hi < p && 0 <= x * p && x * p == hi * BASE + lo * p && 0 <= lo * p <= BASE - p
  {
    assert (hi * q + lo) * p == hi * (p * q) + lo * p;
    MulMono(lo, q - 1, p);
    MulMono(0, lo, p);
    Distribute(q, -1, p);
    if hi >= p {
      MulMono(p, hi, q);
    }
  }

  lemma ModWrap(x: int)
    requires 0 <= x
    ensures x % DIGIT_WRAP % BASE == x % BASE
  {
  }

  /** mp_mul_2d: c = a * 2^b; c may be a. */
  method Mul2d(a: MpInt, b: nat, c: MpInt)
    requires a.Valid() && c.used <= |c.dp|
    modifies c
    ensures c.Valid() && c.Mag() == old(a.Mag()) * Pow2(b)
    ensures c.neg == (old(a.neg) && c.used > 0)
    ensures c.used <= old(a.used) + b / DIGIT_BIT + 1
    ensures old(c.Clean()) ==> c.Clean()
  {
    ghost var m := a.Mag();
    CopyShifted(a, b, c);
    ghost var wide := c.Mag();
    var d := b % DIGIT_BIT;
    if d != 0 {
      ShiftBits(c, d);
    }
    c.Clamp();
    ShiftParts(m, b, wide, c.Mag());
  }

  /** The first half of mp_mul_2d: copy, grow, and shift by whole digits. */
  method CopyShifted(a: MpInt, b: nat, c: MpInt)
    requires a.Valid() && c.used <= |c.dp|
    modifies c
    ensures c.Proper() && c.neg == old(a.neg) && c.used < |c.dp|
    ensures c.Mag() == if b >= DIGIT_BIT then old(a.Mag()) * W(b / DIGIT_BIT) else old(a.Mag())
    ensures c.used <= old(a.used) + b / DIGIT_BIT
    ensures old(c.Clean()) ==> c.Clean()
  {
    Copy(a, c);
    c.Grow(c.used + b / DIGIT_BIT + 1);
    ValSame(c.dp, old(a.dp), 0, c.used);
    if b >= DIGIT_BIT {
      Lshd(c, b / DIGIT_BIT);
    }
  }

  lemma ShiftParts(m: nat, b: nat, wide: int, all: int)
    requires wide == if b >= DIGIT_BIT then m * W(b / DIGIT_BIT) else m
    requires all == if b % DIGIT_BIT != 0 then Pow2(b % DIGIT_BIT) * wide else wide
    ensures all == m * Pow2(b)
  {
    WIsPow2(b / DIGIT_BIT);
    Pow2Add(DIGIT_BIT * (b / DIGIT_BIT), b % DIGIT_BIT);
    TwoFactors(m, W(b / DIGIT_BIT), Pow2(b % DIGIT_BIT), wide, all, Pow2(b));
  }

  lemma TwoFactors(m: int, w: int, p: int, wide: int, all: int, wp: int)
    requires (wide == m * w || (w == 1 && wide == m)) && (all == p * wide || (p == 1 && all == wide)) && wp == w * p
    ensures all == m * wp
  {
    assert m * (w * p) == p * (m * w);
  }

  /** The bit-shift loop of mp_mul_2d, with its final carry digit. */
  method ShiftBits(c: MpInt, d: nat)
    requires c.used < |c.dp| && Digits(c.dp, c.used) && 0 < d < DIGIT_BIT
    modifies c`dp, c`used
    ensures |c.dp| == |old(c.dp)| && c.used <= |c.dp| && Digits(c.dp, c.used)
    ensures Val(c.dp, 0, c.used) == Pow2(d) * Val(old(c.dp), 0, old(c.used))
    ensures old(c.used) <= c.used <= old(c.used) + 1
    ensures old(c.Clean()) ==> c.Clean()
  {
    Pow2Split(d);
    ghost var A := c.dp;
    var r: nat, x := 0, 0;
    while x < c.used
      invariant x <= c.used == old(c.used) && |c.dp| == |A| && r < Pow2(d)
      invariant forall k :: x <= k < |A| ==> c.dp[k] == A[k]
      invariant Scaled(c.dp, A, Pow2(d), x, r)
    {
      ShiftWord(A[x], Pow2(d), Pow2(DIGIT_BIT - d), r);
      ghost var before, r0 := c.dp, r;
      var rr := c.dp[x] / Pow2(DIGIT_BIT - d);
      c.dp := c.dp[x := (c.dp[x] * Pow2(d)) % DIGIT_WRAP % BASE + r];
      r := rr;
      ScaleColumn(before, c.dp, A, Pow2(d), x, r0, r);
      x := x + 1;
    }
    if r != 0 {
      ghost var before := c.dp;
      c.dp := c.dp[c.used := r];
      ValSame(before, c.dp, 0, c.used);
      ValTop(c.dp, 0, c.used);
      c.used := c.used + 1;
    }
  }

  // ----- downward loops: divide by a digit

  lemma DivideStep(s: nat, v: int, q: int, b: nat, w: nat, t: nat, w': nat)
    requires v == q * b + w && s + BASE * w == t * b + w'
    ensures s + BASE * v == (t + BASE * q) * b + w'
  {
    assert (t + BASE * q) * b == t * b + BASE * (q * b);
  }

  /** The digits of c from i up are the quotient, w the remainder, of the digits of a from i up. */
  ghost predicate Divided(c: seq<nat>, a: seq<nat>, b: nat, i: nat, n: nat, w: nat)
    requires n <= |c| && n <= |a|
  {
    && w < b
    && (forall k :: i <= k < n ==> c[k] < BASE)
    && Val(a, i, n) == Val(c, i, n) * b + w
  }

  lemma DivideColumn(c: seq<nat>, c': seq<nat>, a: seq<nat>, b: nat, i: nat, n: nat, w: nat, w': nat)
    requires i < n <= |c| && n <= |c'| && n <= |a| && Divided(c, a, b, i + 1, n, w)
    requires forall k :: i < k < n ==> c'[k] == c[k]
    requires a[i] + BASE * w == c'[i] * b + w' && w' < b && c'[i] < BASE
    ensures Divided(c', a, b, i, n, w')
  {
    ValSame(c, c', i + 1, n);
    DivideStep(a[i], Val(a, i + 1, n), Val(c, i + 1, n), b, w, c'[i], w');
  }

  /** The quotient of a remainder and one more digit is a digit. */
  lemma QuotientWord(w: nat, x: nat, b: nat)
    requires w < b && x < BASE
    ensures (w * BASE + x) / b < BASE
  {
    MulMono(w + 1, b, BASE);
    var t := (w * BASE + x) / b;
    if t >= BASE {
      MulMono(BASE, t, b);
    }
  }

  /** mp_div_d without its special cases: quotient and remainder of |a| by one digit. */
  method DivDGeneral(a: MpInt, b: nat) returns (q: seq<nat>, w: nat)
    requires a.Clamped() && 0 < b < BASE
    ensures |q| == a.used && Divided(q, a.dp, b, 0, a.used, w)
  {
    q := seq(a.used, _ => 0);
    w := 0;
    var ix: nat := a.used;
    while ix > 0
      invariant ix <= a.used == |q| && Divided(q, a.dp, b, ix, a.used, w)
    {
      ix := ix - 1;
      ghost var before, w0 := q, w;
      var t;
      t, w := DivideDigit(w, a.dp[ix], b);
      q := q[ix := t];
      DivideColumn(before, q, a.dp, b, ix, a.used, w0, w);
    }
  }

  /** The loop body of mp_div_d. */
  method DivideDigit(w0: nat, x: nat, b: nat) returns (t: nat, w: nat)
    requires w0 < b && x < BASE
    ensures x + BASE * w0 == t * b + w && w < b && t < BASE
  {
    QuotientWord(w0, x, b);
    w := w0 * BASE + x;
    t := 0;
    if w >= b {
      DivMod(w, b);
      t := w / b;
      w := w - t * b;
    } else {
      MulZero(b);
    }
  }

  /**
   The loop body of mp_div_3: the quotient digit comes from a product with floor(2^28 / 3), which is a little too
   small, and is then fixed up.
   */
  method ThirdWord(word: nat) returns (t: nat, w: nat)
    requires word < 3 * BASE
    ensures word == 3 * t + w && w < 3
  {
    var b := BASE / 3;
    t, w := 0, word;
    if w >= 3 {
      t := (w * b) / BASE;
      w := w - (t + t + t);
      while w >= 3
        invariant 3 * t + w == word
      {
        t := t + 1;
        w := w - 3;
      }
    }
  }

  /** The digit loop of mp_div_3. */
  method Div3Loop(a: MpInt) returns (q: seq<nat>, w: nat)
    requires a.Clamped()
    ensures |q| == a.used && Divided(q, a.dp, 3, 0, a.used, w)
  {
    q := seq(a.used, _ => 0);
    w := 0;
    var ix: nat := a.used;
    while ix > 0
      invariant ix <= a.used == |q| && Divided(q, a.dp, 3, ix, a.used, w)
    {
      ix := ix - 1;
      ghost var before, w0 := q, w;
      var t;
      t, w := ThirdWord(w * BASE + a.dp[ix]);
      q := q[ix := t];
      DivideColumn(before, q, a.dp, 3, ix, a.used, w0, w);
    }
  }
}
