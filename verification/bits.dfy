/** Powers of two: right shifts, low bits, bit counts, halving and doubling, and division by one digit. */
module Bits {
  import Arith
  import opened Radix
  import opened MpInts
  import opened SingleDigit

  /** Shifting a digit down by d bits and bringing in the bits r of the digit above. */
  lemma UnshiftWord(x: nat, p: nat, q: nat, r: nat)
    requires p * q == BASE && x < BASE && r < p
    ensures 0 <= r * q && x / p + r * q < BASE && 0 <= x % p < p
    ensures x + BASE * r == (x / p + r * q) * p + x % p
  {
    Arith.MulMono(r + 1, p, q);
    if x / p >= q {
      Arith.MulMono(q, x / p, p);
    }
    assert (x / p + r * q) * p == (x / p) * p + r * (p * q);
  }

  /** The loop body of mp_div_2d's bit shift: the new digit and the bits it passes down. */
  method UnshiftDigit(x: nat, p: nat, q: nat, r: nat) returns (digit: nat, rr: nat)
    requires p * q == BASE && x < BASE && r < p
    ensures digit < BASE && rr < p && x + BASE * r == digit * p + rr
  {
    UnshiftWord(x, p, q, r);
    rr := x % p;
    digit := x / p + r * q;
  }

  /** The bit-shift loop of mp_div_2d: c becomes the quotient, the bits shifted out are returned. */
  method UnshiftBits(c: MpInt, d: nat) returns (r: nat)
    requires c.used <= |c.dp| && Digits(c.dp, c.used) && 0 < d < DIGIT_BIT
    modifies c`dp
    ensures |c.dp| == |old(c.dp)| && Divided(c.dp, old(c.dp), Pow2(d), 0, c.used, r)
    ensures forall k :: c.used <= k < |c.dp| ==> c.dp[k] == old(c.dp)[k]
  {
    Pow2Split(d);
    var p, q := Pow2(d), Pow2(DIGIT_BIT - d);
    ghost var A := c.dp;
    r := 0;
    var x: nat := c.used;
    while x > 0
      invariant x <= c.used && |c.dp| == |A|
      invariant forall k :: 0 <= k < |A| && !(x <= k < c.used) ==> c.dp[k] == A[k]
      invariant Divided(c.dp, A, p, x, c.used, r)
    {
      x := x - 1;
      ghost var before, r0 := c.dp, r;
      var digit, rr := UnshiftDigit(c.dp[x], p, q, r);
      c.dp := c.dp[x := digit];
      r := rr;
      DivideColumn(before, c.dp, A, p, x, c.used, r0, r);
    }
  }

  lemma DivDiv(x: nat, w: nat, p: nat)
    requires w > 0 && p > 0
    ensures w * p > 0 && (x / w) / p == x / (w * p)
  {
    var y := x / w;
    var z := y / p;
    assert x == w * y + x % w && y == p * z + y % p;
    assert w * y == (w * p) * z + w * (y % p) by {
      assert w * (p * z + y % p) == w * (p * z) + w * (y % p);
    }
    Arith.MulMono(y % p, p - 1, w);
    assert (p - 1) * w == w * p - w;
    Arith.MulMono(0, y % p, w);
    Arith.MulMono(1, p, w);
    Arith.DivUnique(x, w * p, z, w * (y % p) + x % w);
  }

  lemma SplitShift(b: nat)
    ensures Pow2(b) == W(b / DIGIT_BIT) * Pow2(b % DIGIT_BIT)
  {
    WIsPow2(b / DIGIT_BIT);
    Pow2Add(DIGIT_BIT * (b / DIGIT_BIT), b % DIGIT_BIT);
  }

  /** The part of mp_div_2d that makes the quotient: c = a / 2^b, rounded towards zero. */
  method ShiftRight(a: MpInt, b: nat, c: MpInt)
    requires a.Valid() && c.used <= |c.dp|
    modifies c
    ensures c.Valid() && c.Mag() == old(a.Mag()) / Pow2(b)
    ensures c.neg == (old(a.neg) && c.used > 0)
    ensures (old(c.Clean()) ==> c.Clean()) && |c.dp| >= |old(c.dp)|
  {
    Copy(a, c);
    if b >= DIGIT_BIT {
      Rshd(c, b / DIGIT_BIT);
    }
    ghost var m := c.Mag();
    var D := b % DIGIT_BIT;
    if D != 0 {
      var r := UnshiftBits(c, D);
      Arith.DivUnique(m, Pow2(D), Val(c.dp, 0, c.used), r);
    }
    c.Clamp();
    SplitShift(b);
    DivDiv(old(a.Mag()), W(b / DIGIT_BIT), Pow2(D));
  }

  /** mp_mod_2d: c = a mod 2^b, with a's sign; c may be a. */
  method Mod2d(a: MpInt, b: nat, c: MpInt)
    requires a.Valid() && c.used <= |c.dp|
    modifies c
    ensures c.Valid() && c.Mag() == old(a.Mag()) % Pow2(b)
    ensures c.neg == (old(a.neg) && c.used > 0)
    ensures (old(c.Clean()) ==> c.Clean()) && |c.dp| >= |old(c.dp)|
    ensures c == a ==> LowKept(c, old(c.used), old(c.dp))
  {
    MagBounds(a);
    if b == 0 {
      c.Zero();
      assert old(a.Mag()) % 1 == 0;
      return;
    }
    if b >= a.used * DIGIT_BIT {
      Copy(a, c);
      WIsPow2(old(a.used));
      Pow2Mono(DIGIT_BIT * old(a.used), b);
      Arith.DivUnique(old(a.Mag()), Pow2(b), 0, old(a.Mag()));
      return;
    }
    Copy(a, c);
    ghost var A := c.dp;
    ValSame(A, old(a.dp), 0, c.used);
    var x := b / DIGIT_BIT + if b % DIGIT_BIT == 0 then 0 else 1;
    ghost var top := x;
    while x < c.used
      invariant top <= x <= c.used && c.used == old(a.used) && c.neg == old(a.neg) && |c.dp| == |A|
      invariant forall k :: 0 <= k < |A| && !(top <= k < x) ==> c.dp[k] == A[k]
      invariant forall k :: top <= k < x ==> c.dp[k] == 0
    {
      c.dp := c.dp[x := 0];
      x := x + 1;
    }
    x := b / DIGIT_BIT;
    c.dp := c.dp[x := c.dp[x] % Pow2(b % DIGIT_BIT)];
    LowBits(A, c.dp, c.used, b);
    c.Clamp();
  }

  /** Zeroing the digits above bit b and masking the one it cuts through. */
  lemma LowBits(s: seq<nat>, t: seq<nat>, n: nat, b: nat)
    requires n <= |s| && n <= |t| && Digits(s, n) && b < n * DIGIT_BIT
    requires forall k :: 0 <= k < b / DIGIT_BIT ==> t[k] == s[k]
    requires t[b / DIGIT_BIT] == s[b / DIGIT_BIT] % Pow2(b % DIGIT_BIT)
    requires forall k :: b / DIGIT_BIT < k < n ==> t[k] == 0
    ensures Digits(t, n) && Val(t, 0, n) == Val(s, 0, n) % Pow2(b)
  {
    var x, D := b / DIGIT_BIT, b % DIGIT_BIT;
    var p, q := Pow2(D), Pow2(DIGIT_BIT - D);
    Pow2Split(D);
    SplitShift(b);
    ValSplit(s, 0, x, n);
    ValBound(s, 0, x);
    var d := s[x];
    assert t[x] < BASE by {
      assert t[x] < p;
    }
    ZerosAbove(s, t, x, n);
    LowBitsArith(Val(s, 0, x), W(x), d, p, q, Val(s, x + 1, n), Val(s, 0, n));
  }

  lemma ZerosAbove(s: seq<nat>, t: seq<nat>, x: nat, n: nat)
    requires x < n <= |s| && n <= |t| && forall k :: 0 <= k < x ==> t[k] == s[k]
    requires forall k :: x < k < n ==> t[k] == 0
    ensures Val(t, 0, n) == Val(s, 0, x) + W(x) * t[x]
  {
    ValSplit(t, 0, x, n);
    ValSame(s, t, 0, x);
    ValZeros(t, x + 1, n);
  }

  lemma LowBitsArith(low: nat, w: nat, d: nat, p: nat, q: nat, rest: nat, all: int)
    requires low < w && p * q == BASE && p > 0 && all == low + w * (d + BASE * rest)
    ensures w * p > 0 && all % (w * p) == low + w * (d % p)
  {
    var hi, lo := d / p, d % p;
    assert d == p * hi + lo;
    assert d + BASE * rest == p * (hi + q * rest) + lo by {
      assert p * (hi + q * rest) == p * hi + (p * q) * rest;
    }
    assert all == (hi + q * rest) * (w * p) + (low + w * lo) by {
      assert w * (p * (hi + q * rest) + lo) == (w * p) * (hi + q * rest) + w * lo;
    }
    Arith.MulMono(lo, p - 1, w);
    assert (p - 1) * w == w * p - w;
    Arith.MulMono(0, lo, w);
    Arith.MulMono(1, p, w);
    Arith.DivUnique(all, w * p, hi + q * rest, low + w * lo);
  }

  /** mp_div_2d: c = a / 2^b and, when wanted, d = a mod 2^b; d may be a. */
  method Div2d(a: MpInt, b: nat, c: MpInt, d: MpInt?)
    requires a.Valid() && c.Valid() && (d != null ==> d.Valid() && c != d)
    modifies c, d
    ensures c.Valid() && c.Mag() == old(a.Mag()) / Pow2(b)
    ensures c.neg == (old(a.neg) && c.used > 0)
    ensures (old(c.Clean()) ==> c.Clean()) && |c.dp| >= |old(c.dp)|
    ensures d != null ==> d.Valid() && d.Mag() == old(a.Mag()) % Pow2(b) && d.neg == (old(a.neg) && d.used > 0)
    ensures d != null ==> d.Clean() && (b > 0 ==> |d.dp| > 0)
  {
    if b == 0 {
      assert old(a.Mag()) / 1 == old(a.Mag()) && old(a.Mag()) % 1 == 0;
      Copy(a, c);
      if d != null {
        d.Zero();
      }
      return;
    }
    var t := new MpInt();
    if d != null {
      Mod2d(a, b, t);
    }
    ShiftRight(a, b, c);
    if d != null {
      Move(t, d);
    }
  }

  /** The bit count of m, as mp_count_bits gives it. */
  function BitCount(m: nat): nat {
    if m == 0 then 0 else 1 + BitCount(m / 2)
  }

  lemma {:induction false} BitCountIs(m: nat, p: nat)
    requires m > 0 && p > 0 && Pow2(p - 1) <= m < Pow2(p)
    ensures p == BitCount(m)
  {
    if m > 1 {
      BitCountIs(m / 2, p - 1);
    }
  }

  lemma {:induction false} BitCountBounds(m: nat)
    requires m > 0
    ensures BitCount(m) > 0 && Pow2(BitCount(m) - 1) <= m < Pow2(BitCount(m))
  {
    if m > 1 {
      BitCountBounds(m / 2);
    }
  }

  /** mp_count_bits */
  method CountBits(a: MpInt) returns (r: nat)
    requires a.Valid()
    ensures a.Mag() < Pow2(r)
    ensures a.used > 0 ==> r > 0 && Pow2(r - 1) <= a.Mag() && DIGIT_BIT * (a.used - 1) < r <= DIGIT_BIT * a.used
    ensures a.used == 0 ==> r == 0
  {
    if a.used == 0 {
      return 0;
    }
    r := (a.used - 1) * DIGIT_BIT;
    var q: nat := a.dp[a.used - 1];
    ghost var bits: nat := 0;
    while q > 0
      invariant r == (a.used - 1) * DIGIT_BIT + bits
      invariant q * Pow2(bits) <= a.dp[a.used - 1] < (q + 1) * Pow2(bits)
      invariant q == 0 ==> bits > 0 && Pow2(bits - 1) <= a.dp[a.used - 1]
      decreases q
    {
      HalfStep(q, Pow2(bits), a.dp[a.used - 1]);
      q := q / 2;
      bits := bits + 1;
      r := r + 1;
    }
    TopBits(a.dp, a.used, bits);
  }

  lemma HalfStep(q: nat, p: nat, d: nat)
    requires q * p <= d < (q + 1) * p && q > 0
    ensures (q / 2) * (2 * p) <= d < (q / 2 + 1) * (2 * p) && p <= d
  {
    Arith.MulMono(2 * (q / 2), q, p);
    Arith.MulMono(q + 1, 2 * (q / 2) + 2, p);
    Arith.MulMono(1, q, p);
    assert (q / 2) * (2 * p) == (2 * (q / 2)) * p;
    assert (q / 2 + 1) * (2 * p) == (2 * (q / 2) + 2) * p;
  }

  lemma TopBits(s: seq<nat>, n: nat, bits: nat)
    requires 0 < n <= |s| && Digits(s, n) && bits > 0 && Pow2(bits - 1) <= s[n - 1] < Pow2(bits)
    ensures Pow2((n - 1) * DIGIT_BIT + bits - 1) <= Val(s, 0, n) < Pow2((n - 1) * DIGIT_BIT + bits)
    ensures bits <= DIGIT_BIT
  {
    ValTop(s, 0, n - 1);
    ValBound(s, 0, n - 1);
    WIsPow2(n - 1);
    Pow2Add((n - 1) * DIGIT_BIT, bits - 1);
    Pow2Add((n - 1) * DIGIT_BIT, bits);
    if bits > DIGIT_BIT {
      Pow2Digit();
      Pow2Mono(DIGIT_BIT, bits - 1);
    }
    TopRange(Val(s, 0, n - 1), s[n - 1], W(n - 1), Pow2(bits - 1), Pow2(bits));
  }

  lemma TopRange(low: nat, d: nat, w: nat, p: nat, q: nat)
    requires low < w && p <= d < q
    ensures w * p <= low + d * w < w * q
  {
    Arith.MulMono(p, d, w);
    Arith.MulMono(d + 1, q, w);
  }

  /** mp_2expt: a = 2^b. */
  method TwoExpt(a: MpInt, b: nat)
    modifies a
    ensures a.Valid() && a.Clean() && !a.neg && a.Mag() == Pow2(b) && a.used == b / DIGIT_BIT + 1
  {
    a.Zero();
    a.Grow(b / DIGIT_BIT + 1);
    a.used := b / DIGIT_BIT + 1;
    a.dp := a.dp[b / DIGIT_BIT := Pow2(b % DIGIT_BIT)];
    OneBit(a.dp, b);
  }

  lemma OneBit(s: seq<nat>, b: nat)
    requires b / DIGIT_BIT < |s| && s[b / DIGIT_BIT] == Pow2(b % DIGIT_BIT)
    requires forall k :: 0 <= k < b / DIGIT_BIT ==> s[k] == 0
    ensures Val(s, 0, b / DIGIT_BIT + 1) == Pow2(b) && Pow2(b % DIGIT_BIT) < BASE
  {
    Pow2Digit();
    Pow2Mono(b % DIGIT_BIT, DIGIT_BIT - 1);
    ValTop(s, 0, b / DIGIT_BIT);
    ValZeros(s, 0, b / DIGIT_BIT);
    SplitShift(b);
  }

  // ----- halving and doubling

  /** mp_div_2: b = a / 2, rounded towards zero; b may be a. */
  method Div2(a: MpInt, b: MpInt)
    requires a.Valid() && b.used <= |b.dp|
    modifies b
    ensures b.Valid() && b.Mag() == old(a.Mag()) / 2 && b.neg == (old(a.neg) && b.used > 0)
    ensures b.used <= old(a.used)
  {
    ghost var A := a.dp;
    var n, sign := a.used, a.neg;
    b.Grow(n);
    var oldused := b.used;
    HalveLoop(a, b, n, A);
    b.used, b.neg := n, sign;
    b.Settle(b.used, oldused);
  }

  /** The loop of mp_div_2, from the top digit down. */
  method HalveLoop(a: MpInt, b: MpInt, n: nat, ghost A: seq<nat>)
    requires n <= |A| && n <= |b.dp| && Digits(A, n)
    requires n <= |a.dp| && forall k :: 0 <= k < n ==> a.dp[k] == A[k]
    modifies b`dp
    ensures |b.dp| == |old(b.dp)| && Digits(b.dp, n) && Val(b.dp, 0, n) == Val(A, 0, n) / 2
    ensures forall k :: n <= k < |b.dp| ==> b.dp[k] == old(b.dp)[k]
  {
    var r: nat, x: nat := 0, n;
    while x > 0
      invariant x <= n && |b.dp| == |old(b.dp)|
      invariant |a.dp| >= n && forall k :: 0 <= k < x ==> a.dp[k] == A[k]
      invariant forall k :: n <= k < |b.dp| ==> b.dp[k] == old(b.dp)[k]
      invariant Divided(b.dp, A, 2, x, n, r)
    {
      x := x - 1;
      ghost var before, r0 := b.dp, r;
      var rr := a.dp[x] % 2;
      b.dp := b.dp[x := a.dp[x] / 2 + r * (BASE / 2)];
      r := rr;
      DivideColumn(before, b.dp, A, 2, x, n, r0, r);
    }
    Arith.DivUnique(Val(A, 0, n), 2, Val(b.dp, 0, n), r);
  }

  /** mp_mul_2: b = 2 * a; b may be a. */
  method Mul2(a: MpInt, b: MpInt)
    requires a.Valid() && b.used <= |b.dp|
    modifies b
    ensures b.Valid() && b.Value() == 2 * old(a.Value()) && b.used <= old(a.used) + 1
    ensures old(b.Clean()) ==> b.Clean()
  {
    ghost var A := a.dp;
    var n, sign := a.used, a.neg;
    b.Grow(n + 1);
    var oldused := b.used;
    var r := DoubleLoop(a, b, n, A);
    b.used, b.neg := n, sign;
    if r != 0 {
      AppendOne(b, n);
    }
    b.Settle(b.used, oldused);
  }

  /** "new leading digit is always 1 at this point" */
  method AppendOne(b: MpInt, n: nat)
    requires b.used == n < |b.dp| && Digits(b.dp, n)
    modifies b`dp, b`used
    ensures b.used == n + 1 && |b.dp| == |old(b.dp)| && Digits(b.dp, n + 1)
    ensures Val(b.dp, 0, n + 1) == Val(old(b.dp), 0, n) + W(n)
    ensures forall k :: n < k < |b.dp| ==> b.dp[k] == old(b.dp)[k]
  {
    b.dp := b.dp[n := 1];
    ValSame(old(b.dp), b.dp, 0, n);
    ValTop(b.dp, 0, n);
    b.used := n + 1;
  }

  /** The digit loop of mp_mul_2. */
  method DoubleLoop(a: MpInt, b: MpInt, n: nat, ghost A: seq<nat>) returns (r: nat)
    requires n <= |A| && n < |b.dp| && Digits(A, n)
    requires n <= |a.dp| && forall k :: 0 <= k < n ==> a.dp[k] == A[k]
    modifies b`dp
    ensures r <= 1 && |b.dp| == |old(b.dp)| && Scaled(b.dp, A, 2, n, r)
    ensures forall k :: n <= k < |b.dp| ==> b.dp[k] == old(b.dp)[k]
  {
    r := 0;
    var x := 0;
    while x < n
      invariant x <= n && |b.dp| == |old(b.dp)| && r <= 1
      invariant |a.dp| >= n && forall k :: x <= k < n ==> a.dp[k] == A[k]
      invariant forall k :: n <= k < |b.dp| ==> b.dp[k] == old(b.dp)[k]
      invariant Scaled(b.dp, A, 2, x, r)
    {
      ghost var before, r0 := b.dp, r;
      var rr := a.dp[x] / (BASE / 2);
      b.dp := b.dp[x := (a.dp[x] * 2) % DIGIT_WRAP % BASE + r];
      r := rr;
      ScaleColumn(before, b.dp, A, 2, x, r0, r);
      x := x + 1;
    }
  }
}
