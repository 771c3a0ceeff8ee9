/**
 Barrett reduction after HAC 14.42.  The high product leaves out every column below m->used, so the estimated quotient
 can fall short by about m->used instead of two; the final loop makes up for that.
 */
module Barrett {
  import opened Arith
  import opened Radix
  import opened MpInts
  import opened AddSub
  import opened Bits
  import opened Columns
  import opened Multiply
  import LongDivision
  import Product

  /** mp_reduce_setup: a = BASE^(2 * b->used) / b, with the sign of b; false is MP_VAL. */
  method ReduceSetup(a: MpInt, b: MpInt) returns (ok: bool)
    requires a.Valid() && b.Valid() && a != b
    modifies a
    ensures ok == (b.Mag() != 0) && a.Valid()
    ensures ok ==> a.Mag() == W(2 * b.used) / b.Mag() && a.neg == b.neg
  {
    TwoExpt(a, b.used * 2 * DIGIT_BIT);
    WIsPow2(2 * b.used);
    MagBounds(b);
    ok := LongDivision.Div(a, b, a, null);
    if ok {
      QuotientSign(W(2 * b.used), b.Mag(), b.used);
      MagBounds(a);
    }
  }

  /** The quotient has the sign of the modulus, and is not zero. */
  lemma QuotientSign(x: nat, y: nat, n: nat)
    requires 0 < y < W(n) && x == W(2 * n)
    ensures TQuot(x, y) == x / y > 0 && TQuot(x, -(y as int)) == -(x / y)
  {
    WAdd(n, n);
    MulMono(1, W(n), W(n));
    DivMod(x, y);
    if x / y <= 0 {
      MulMono(x / y, 0, y);
    }
  }

  // ----- how good the estimate is

  /** The largest number of digits for which the source uses the truncated product. */
  const MAX_TRUNCATED: nat := 0x800_0000   // 1 << (DIGIT_BIT - 1)

  /**
   The facts about one reduction: a = BASE^(k - 1), c = BASE^(k + 1); q1 = x / a, mu = a * c / m, and q is the estimate
   of x / m: c * q falls short of q1 * mu by less than c plus the dropped columns.
   */
  ghost predicate Estimate(x: nat, m: nat, a: nat, c: nat, q1: nat, mu: nat, q: nat, drop: nat) {
    && a > 0 && a <= m && x < a * c
    && q1 * a <= x < (q1 + 1) * a
    && mu * m <= a * c < (mu + 1) * m
    && q * c <= q1 * mu < q * c + (drop + 1) * c
  }

  /** The estimate is never too large. */
  lemma EstimateBelow(x: nat, m: nat, a: nat, c: nat, q1: nat, mu: nat, q: nat, drop: nat)
    requires Estimate(x, m, a, c, q1, mu, q, drop) && c > 0
    ensures q * m <= x
  {
    BelowArith(x, m, a, c, q1, mu, q);
  }

  lemma BelowArith(x: nat, m: nat, a: nat, c: nat, q1: nat, mu: nat, q: nat)
    requires a > 0 && c > 0 && q1 * a <= x && mu * m <= a * c && q * c <= q1 * mu
    ensures q * m <= x
  {
    MulMono(q * c, q1 * mu, m);
    MulMono(mu * m, a * c, q1);
    MulMono(q1 * a, x, c);
    Rotate(q, c, m);
    Rotate(q1, mu, m);
    assert (mu * m) * q1 == q1 * (mu * m);
    assert (a * c) * q1 == (q1 * a) * c;
    assert (q * m) * c == (q * c) * m;
    MulCancelMost(q * m, x, c);
  }

  lemma Rotate(x: int, y: int, z: int)
    ensures (x * y) * z == x * (y * z)
  {
  }

  /** It falls short by at most drop + 2. */
  lemma EstimateAbove(x: nat, m: nat, a: nat, c: nat, q1: nat, mu: nat, q: nat, drop: nat)
    requires Estimate(x, m, a, c, q1, mu, q, drop) && c > 0
    ensures x < (q + drop + 3) * m
  {
    SmallFactors(x, m, a, c, q1, mu);
    AboveProduct(x, m, a, c, q1, mu);
    AboveArith(x, m, c, q1 * mu, q, drop);
  }

  lemma SmallFactors(x: nat, m: nat, a: nat, c: nat, q1: nat, mu: nat)
    requires a > 0 && a <= m && x < a * c && q1 * a <= x && mu * m <= a * c
    ensures q1 < c && mu <= c
  {
    MulCancelLess(q1, c, a);
    MulMono(a, m, mu);
    if mu > c {
      MulMono(c + 1, mu, a);
      Distribute(c, 1, a);
    }
  }

  lemma AboveProduct(x: nat, m: nat, a: nat, c: nat, q1: nat, mu: nat)
    requires a > 0 && a <= m && x < (q1 + 1) * a && a * c < (mu + 1) * m && q1 < c && mu <= c
    ensures x * c < (q1 * mu + 2 * c) * m
  {
    var q, u := q1 + 1, mu + 1;
    MulLess(0, a, c);
    ChainLess(x, q * a, a * c, u * m);
    Regroup(q, u, m, a, c, x);
    CancelA(x * c, (q * u) * m, a);
    FewMore(q1, mu, c);
    MulMono(q * u, q1 * mu + 2 * c, m);
  }

  lemma FewMore(q1: nat, mu: nat, c: nat)
    requires q1 < c && mu <= c
    ensures (q1 + 1) * (mu + 1) <= q1 * mu + 2 * c
  {
    assert (q1 + 1) * (mu + 1) == q1 * mu + q1 + mu + 1;
  }

  lemma ChainLess(x: int, y: int, z: int, w: int)
    requires x < y && 0 < z <= w && 0 <= y
    ensures x * z < y * w
  {
    MulLess(x, y, z);
    MulMono(z, w, y);
  }

  lemma Regroup(q: int, u: int, m: int, a: int, c: int, x: int)
    ensures x * (a * c) == (x * c) * a
    ensures (q * a) * (u * m) == ((q * u) * m) * a
  {
    assert (q * a) * (u * m) == (q * u) * (m * a);
  }

  lemma CancelA(x: int, y: int, a: int)
    requires a > 0 && x * a < y * a
    ensures x < y
  {
    MulCancelLess(x, y, a);
  }

  lemma AboveArith(x: nat, m: nat, c: nat, p: nat, q: nat, drop: nat)
    requires c > 0 && x * c < (p + 2 * c) * m && p < q * c + (drop + 1) * c
    ensures x < (q + drop + 3) * m
  {
    MulMono(p + 2 * c, (q + drop + 3) * c, m);
    assert (q + drop + 3) * c == q * c + (drop + 1) * c + 2 * c;
    assert ((q + drop + 3) * c) * m == ((q + drop + 3) * m) * c;
    MulCancelLess(x, (q + drop + 3) * m, c);
  }

  // ----- the truncated product

  /** What the high columns leave of q1 * mu. */
  lemma Truncated(a: seq<nat>, na: nat, b: seq<nat>, nb: nat, k: nat, high: nat, q: nat)
    requires na <= |a| && nb <= |b| && Digits(a, na) && Digits(b, nb) && k <= na + nb
    requires high == Cols(a, na, b, nb, k, na + nb) && q == high / BASE
    ensures q * W(k + 1) <= Val(a, 0, na) * Val(b, 0, nb) < q * W(k + 1) + (k + 1) * W(k + 1)
  {
    ColsSplit(a, na, b, nb, k, na + nb);
    ColsFull(a, na, b, nb, na + nb);
    LowColumnsBound(a, na, b, nb, k, k);
    DivMod(high, BASE);
    TruncatedArith(Val(a, 0, na) * Val(b, 0, nb), Cols(a, na, b, nb, 0, k), W(k), high, q, high % BASE, k);
  }

  lemma TruncatedArith(p: int, low: nat, w: nat, high: nat, q: nat, r: nat, k: nat)
    requires p == low + w * high && low <= k * ((BASE - 1) * w) && high == q * BASE + r && r < BASE && w > 0
    ensures q * (BASE * w) <= p < q * (BASE * w) + (k + 1) * (BASE * w)
  {
    assert w * high == q * (BASE * w) + r * w by {
      assert w * (q * BASE + r) == q * (BASE * w) + r * w;
    }
    MulMono(r, BASE - 1, w);
    MulMono(0, r, w);
    assert k * ((BASE - 1) * w) <= k * (BASE * w) by {
      MulMono((BASE - 1) * w, BASE * w, k);
    }
    Distribute(k, 1, BASE * w);
  }

  /** How many columns' worth the source drops: none when it takes the full product. */
  function Dropped(k: nat): nat {
    if k > MAX_TRUNCATED then 0 else k
  }

  /** q's buffer has room for the k + 1 digits of the truncated product and the word above them. */
  ghost predicate HasRoom(q: MpInt, k: nat)
    reads q
  {
    k <= MAX_TRUNCATED && q.used > 0 ==> |q.dp| > k + 1
  }

  /** q = q1 * mu / BASE^(k + 1), where q1 is what q holds; the low columns may be missing. */
  method QuotientEstimate(q: MpInt, mu: MpInt, k: nat)
    requires q.Valid() && q.Clean() && !q.neg && mu.Valid() && !mu.neg && q != mu
    requires q.used <= k + 1 && mu.used > k
    modifies q
    ensures q.Valid() && !q.neg && HasRoom(q, k)
    ensures q.Mag() * W(k + 1) <= old(q.Mag()) * mu.Mag() < q.Mag() * W(k + 1) + (Dropped(k) + 1) * W(k + 1)
  {
    if k > MAX_TRUNCATED {
      FullProduct(q, mu, k);
    } else {
      HighProduct(q, mu, k);
    }
  }

  method FullProduct(q: MpInt, mu: MpInt, k: nat)
    requires q.Valid() && !q.neg && mu.Valid() && !mu.neg && q != mu
    modifies q
    ensures q.Valid() && !q.neg
    ensures q.Mag() * W(k + 1) <= old(q.Mag()) * mu.Mag() < q.Mag() * W(k + 1) + W(k + 1)
  {
    ghost var p: int := q.Mag() * mu.Mag();
    MulMono(0, q.Mag(), mu.Mag());
    var word := AnyWord();
    Product.Mul(q, mu, q, word);
    MagBounds(q);
    Rshd(q, k + 1);
    DivMod(p, W(k + 1));
  }

  method HighProduct(q: MpInt, mu: MpInt, k: nat)
    requires q.Valid() && q.Clean() && !q.neg && mu.Valid() && !mu.neg && q != mu
    requires q.used <= k + 1 && mu.used > k
    modifies q
    ensures q.Valid() && !q.neg && HasRoom(q, k)
    ensures q.Mag() * W(k + 1) <= old(q.Mag()) * mu.Mag() < q.Mag() * W(k + 1) + (k + 1) * W(k + 1)
  {
    ghost var high := Cols(q.dp, q.used, mu.dp, mu.used, k, q.used + mu.used);
    Truncated(q.dp, q.used, mu.dp, mu.used, k, high, high / BASE);
    MulHighDigs(q, mu, q, k);
    DivDiv(q.Mag(), W(k), BASE);
    Rshd(q, k + 1);
    MagBounds(q);
  }

  // ----- the reduction

  /** x - q mod c, where x and q stand for themselves modulo c and their difference is below c. */
  lemma WrappedDifference(x: nat, q: nat, c: nat, low: nat, ql: nat, r: nat)
    requires c > 0 && low == x % c && ql == q % c && x == q + r && r < c
    ensures r == if low >= ql then low - ql else low - ql + c
  {
    DivMod(x, c);
    DivMod(q, c);
    var j := x / c - q / c;
    Distribute(x / c, -(q / c), c);
    assert r == j * c + (low - ql);
    if j < 0 {
      MulMono(j, -1, c);
    } else if j > 1 {
      MulMono(2, j, c);
    }
  }

  /** What is left of x is small enough to be kept in BASE^(k + 1). */
  lemma RestBelow(x: nat, q: nat, m: nat, k: nat) returns (r: nat)
    requires m < W(k) && q * m <= x < (q + Dropped(k) + 3) * m
    ensures x == q * m + r && r < (Dropped(k) + 3) * m && r < W(k + 1)
  {
    r := x - q * m;
    var s := Dropped(k) + 3;
    assert (q + s) * m == q * m + s * m;
    MulMono(m, W(k), s);
    MulMono(s, BASE, W(k));
    assert s * m == m * s && s * W(k) == W(k) * s;
  }

  /** "x = x mod b**(k+1)" and "q = q * m mod b**(k+1)"; the product never leaves q's buffer. */
  method LowParts(x: MpInt, m: MpInt, q: MpInt) returns (overrun: bool)
    requires x.Valid() && !x.neg && m.Valid() && q.Valid() && !q.neg && x != m && q != m && x != q
    requires HasRoom(q, m.used)
    modifies x, q
    ensures x.Valid() && !x.neg && q.Valid() && !q.neg
    ensures x.Mag() == old(x.Mag()) % W(m.used + 1) && q.Mag() == (old(q.Mag()) * m.Mag()) % W(m.used + 1)
    ensures !overrun
    ensures LowKept(x, old(x.used), old(x.dp))
  {
    WIsPow2(m.used + 1);
    Mod2d(x, DIGIT_BIT * (m.used + 1), x);
    var word := AnyWord();
    overrun := MulDigs(q, m, q, m.used + 1, word);
  }

  lemma ProductOf(x: nat, y: nat) returns (p: nat)
    ensures p == x * y
  {
    MulMono(0, x, y);
    p := x * y;
  }

  /** "x = x - q", and the wrap-around repaired. */
  method SubtractEstimate(x: MpInt, m: MpInt, q: MpInt, ghost r: nat)
    requires x.Valid() && !x.neg && m.Valid() && !m.neg && q.Valid() && !q.neg && x != m && q != m && x != q
    requires x.Mag() == q.Mag() * m.Mag() + r && r < W(m.used + 1) && HasRoom(q, m.used)
    modifies x, q
    ensures x.Valid() && x.Value() == r
    ensures LowKept(x, old(x.used), old(x.dp))
  {
    ghost var xm := x.Mag();
    ghost var qm := ProductOf(q.Mag(), m.Mag());
    var overrun := LowParts(x, m, q);
    WrappedDifference(xm, qm, W(m.used + 1), x.Mag(), q.Mag(), r);
    SubtractWrapped(x, q, m.used + 1);
  }

  method SubtractWrapped(x: MpInt, q: MpInt, n: nat)
    requires x.Valid() && !x.neg && q.Valid() && !q.neg && x != q
    modifies x, q
    ensures x.Valid()
    ensures x.Value() == old(if x.Mag() >= q.Mag() then x.Mag() - q.Mag() else x.Mag() - q.Mag() + W(n))
    ensures LowKept(x, old(x.used), old(x.dp))
  {
    Sub(x, q, x);
    MagBounds(x);
    if x.neg {
      AddWeight(x, q, n);
    }
  }

  /** "If x < 0, add b**(k+1) to it": mp_cmp_d (x, 0) is MP_LT exactly when the sign is negative. */
  method AddWeight(x: MpInt, q: MpInt, n: nat)
    requires x.Valid() && q.used <= |q.dp| && x != q
    modifies x, q
    ensures x.Valid() && x.Value() == old(x.Value()) + W(n)
    ensures LowKept(x, old(x.used), old(x.dp))
  {
    q.Set(1);
    MagBounds(q);
    Lshd(q, n);
    Add(x, q, x);
  }

  /** "Back off if it's too big": at most the given number of subtractions, counted by `rounds`. */
  method BackOff(x: MpInt, m: MpInt, ghost most: nat) returns (ghost rounds: nat)
    requires x.Valid() && !x.neg && m.Valid() && !m.neg && m.Mag() > 0 && x != m && x.Mag() < (most + 1) * m.Mag()
    modifies x
    ensures x.Valid() && !x.neg && x.Mag() == old(x.Mag()) % m.Mag() && rounds <= most
    ensures LowKept(x, old(x.used), old(x.dp))
  {
    ghost var xm := x.Mag();
    rounds := 0;
    MulZero(m.Mag());
    MagBounds(m);
    var r := Cmp(x, m);
    while r != -1
      invariant x.Valid() && !x.neg && xm == rounds * m.Mag() + x.Mag()
      invariant (r == -1 <==> x.Mag() < m.Mag()) && LowKept(x, old(x.used), old(x.dp))
      decreases x.Mag()
    {
      UsedMono(m, x);
      SSub(x, m, x);
      Distribute(rounds, 1, m.Mag());
      rounds := rounds + 1;
      r := Cmp(x, m);
    }
    DivUnique(xm, m.Mag(), rounds, x.Mag());
    MulCancelLess(rounds, most + 1, m.Mag());
  }

  /** How q1, mu and the estimate fit together. */
  lemma Fits(x: nat, m: nat, k: nat, q1: nat, mu: nat)
    requires k > 0 && W(k - 1) <= m < W(k) && x < W(2 * k) && q1 == x / W(k - 1) && mu == W(2 * k) / m
    ensures q1 < W(k + 1) && mu >= W(k)
    ensures x < W(k - 1) * W(k + 1) && q1 * W(k - 1) <= x < (q1 + 1) * W(k - 1)
    ensures mu * m <= W(k - 1) * W(k + 1) < (mu + 1) * m
  {
    WAdd(k - 1, k + 1);
    WAdd(k, k);
    DivMod(x, W(k - 1));
    Distribute(q1, 1, W(k - 1));
    DivMod(W(2 * k), m);
    Distribute(mu, 1, m);
    MulCancelLess(q1, W(k + 1), W(k - 1));
    if mu < W(k) {
      ProductBelow(mu, W(k), m, W(k));
      BelowNext(mu, W(k), m);
    }
  }

  lemma BelowNext(mu: nat, w: nat, m: nat)
    requires mu < w && 0 < m < w
    ensures (mu + 1) * m < w * w
  {
    MulMono(mu + 1, w, m);
    MulLess(m, w, w);
  }

  /** The first half of mp_reduce: the estimate of x / m. */
  method EstimateQuotient(x: MpInt, m: MpInt, mu: MpInt) returns (q: MpInt)
    requires x.Valid() && !x.neg && m.Valid() && !m.neg && mu.Valid() && !mu.neg
    requires m.Mag() > 0 && x.Mag() < W(2 * m.used) && mu.Mag() == W(2 * m.used) / m.Mag()
    ensures fresh(q) && q.Valid() && !q.neg && HasRoom(q, m.used)
    ensures q.Mag() * m.Mag() <= x.Mag() < (q.Mag() + Dropped(m.used) + 3) * m.Mag()
  {
    var um := m.used;
    ghost var xm, mm, mv := x.Mag(), m.Mag(), mu.Mag();
    MagBounds(m);
    q := LongDivision.CopyMagnitude(x);
    Rshd(q, um - 1);
    ghost var q1 := q.Mag();
    Fits(xm, mm, um, q1, mv);
    UsedBelow(q, um + 1);
    UsedBelow(mu, um);
    QuotientEstimate(q, mu, um);
    EstimateBelow(xm, mm, W(um - 1), W(um + 1), q1, mv, q.Mag(), Dropped(um));
    EstimateAbove(xm, mm, W(um - 1), W(um + 1), q1, mv, q.Mag(), Dropped(um));
  }

  /**
   mp_reduce: x mod m for 0 <= x < radix^(2k), so for more than the x < m^2 it asks for.  The final loop runs at most
   Dropped(k) + 2 times, where k is m's digit count.
   */
  method Reduce(x: MpInt, m: MpInt, mu: MpInt) returns (ghost rounds: nat)
    requires x.Valid() && !x.neg && m.Valid() && !m.neg && mu.Valid() && !mu.neg && x != m && x != mu
    requires m.Mag() > 0 && x.Mag() < W(2 * m.used) && mu.Mag() == W(2 * m.used) / m.Mag()
    modifies x
    ensures x.Valid() && !x.neg && x.Mag() == old(x.Mag()) % m.Mag()
    ensures rounds <= Dropped(m.used) + 2
    ensures LowKept(x, old(x.used), old(x.dp))
  {
    var q;
    ghost var r;
    q, r := EstimateAndRest(x, m, mu);
    SubtractEstimate(x, m, q, r);
    MagBounds(x);
    rounds := BackOff(x, m, Dropped(m.used) + 2);
  }

  /** The estimate, and what it leaves of x. */
  method EstimateAndRest(x: MpInt, m: MpInt, mu: MpInt) returns (q: MpInt, ghost r: nat)
    requires x.Valid() && !x.neg && m.Valid() && !m.neg && mu.Valid() && !mu.neg
    requires m.Mag() > 0 && x.Mag() < W(2 * m.used) && mu.Mag() == W(2 * m.used) / m.Mag()
    ensures fresh(q) && q.Valid() && !q.neg && HasRoom(q, m.used)
    ensures x.Mag() == q.Mag() * m.Mag() + r && r < W(m.used + 1) && r < (Dropped(m.used) + 3) * m.Mag()
    ensures r % m.Mag() == x.Mag() % m.Mag()
  {
    MagBounds(m);
    q := EstimateQuotient(x, m, mu);
    r := RestBelow(x.Mag(), q.Mag(), m.Mag(), m.used);
    SameRemainder(x.Mag(), q.Mag(), m.Mag(), r);
  }

  lemma SameRemainder(x: nat, q: int, m: nat, r: nat)
    requires m > 0 && x == q * m + r
    ensures x % m == r % m
  {
    DivMod(r, m);
    Distribute(q, r / m, m);
    DivUnique(x, m, q + r / m, r % m);
  }
}
