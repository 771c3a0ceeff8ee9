/**
 mp_div: schoolbook long division after HAC 14.20, with the source's own departures: the divisor is normalised to a
 top digit in [BASE/4, BASE/2), the trial product is compared with a three-digit number that is not clamped, and
 rounds in which the dividend has become too short are skipped.
 */
module LongDivision {
  import opened Arith
  import opened Radix
  import opened MpInts
  import AddSub
  import SingleDigit
  import Bits

  // ----- the quotient digit estimate, on plain numbers

  /**
   What the estimate knows at one position.  s is the divisor and x the rest of the dividend, aligned, with
   x < BASE * s; p is the weight of the dividend's second digit.  xt is the top digit, x2 and x3 the top two and three
   digits of x, and yt and y2 the top digit and top two digits of the divisor.
   */
  ghost predicate Aligned(x: nat, s: nat, p: nat, xt: nat, x2: nat, x3: nat, yt: nat, y2: nat) {
    && p > 0 && x < BASE * s
    && BASE / 4 <= yt < BASE / 2
    && x2 * p <= x < (x2 + 1) * p
    && x3 * p <= BASE * x < (x3 + 1) * p
    && yt * p <= s < (yt + 1) * p
    && y2 * p <= BASE * s < (y2 + 1) * p
    && xt * BASE <= x2 < xt * BASE + BASE
    && (xt == 0 <==> x3 < BASE * BASE)
  }

  /** The first estimate is never too small. */
  lemma FirstEstimate(x: nat, s: nat, p: nat, xt: nat, x2: nat, x3: nat, yt: nat, y2: nat, q: nat)
    requires Aligned(x, s, p, xt, x2, x3, yt, y2)
    requires q == BASE - 1 || (q < BASE && q == x2 / yt)
    ensures x < (q + 1) * s
  {
    if q != BASE - 1 {
      DivMod(x2, yt);
      Distribute(q, 1, yt);
      QuotientAbove(x, x2, p, q + 1, yt, s);
    }
  }

  lemma QuotientAbove(x: int, x2: int, p: int, q: nat, yt: int, s: int)
    requires x < (x2 + 1) * p && x2 + 1 <= q * yt && yt * p <= s && p > 0
    ensures x < q * s
  {
    MulMono(x2 + 1, q * yt, p);
    MulMono(yt * p, s, q);
    Reassociate(q, yt, p);
  }

  /** Lowering the estimate because the two-digit test failed keeps it from being too small. */
  lemma LowerEstimate(x: nat, s: nat, p: nat, xt: nat, x2: nat, x3: nat, yt: nat, y2: nat, q: nat)
    requires Aligned(x, s, p, xt, x2, x3, yt, y2) && q * y2 > x3
    ensures q > 0 && x < q * s
  {
    MulMono(x3 + 1, q * y2, p);
    MulMono(y2 * p, BASE * s, q);
    assert (q * y2) * p == (y2 * p) * q;
    assert q * (BASE * s) == BASE * (q * s);
    assert BASE * x < BASE * (q * s);
    if q == 0 {
      MulZero(y2);
    }
  }

  /** An estimate that passes the two-digit test is at most one too large. */
  lemma PassedTest(x: nat, s: nat, p: nat, xt: nat, x2: nat, x3: nat, yt: nat, y2: nat, q: nat)
    requires Aligned(x, s, p, xt, x2, x3, yt, y2) && q < BASE && q * y2 <= x3
    ensures q * s <= x + s
  {
    ScaledBound(q, s, y2, p);
    MulMono(q * y2, x3, p);
    MulMono(q, BASE, p);
    MulMono(1, yt, p);
  }

  lemma ScaledBound(q: nat, s: nat, y: nat, p: nat)
    requires BASE * s < (y + 1) * p
    ensures BASE * (q * s) <= (q * y) * p + q * p
  {
    MulMono(BASE * s, (y + 1) * p, q);
    assert q * ((y + 1) * p) == (q * y) * p + q * p;
    assert q * (BASE * s) == BASE * (q * s);
  }

  /**
   With a zero top digit the three-digit number is not clamped, and the test may stop early; then the estimate rests on
   one digit only, which is enough because it is small.
   */
  lemma StoppedEarly(x: nat, s: nat, p: nat, xt: nat, x2: nat, x3: nat, yt: nat, y2: nat, q: nat)
    requires Aligned(x, s, p, xt, x2, x3, yt, y2) && q * yt <= x2 && x2 < BASE
    ensures q * s <= x + s
  {
    if q > 4 {
      MulMono(5, q, yt);
    }
    MulMono(s, (yt + 1) * p, q);
    assert q * ((yt + 1) * p) == (q * yt) * p + q * p;
    MulMono(q * yt, x2, p);
    MulMono(q, yt, p);
  }

  // ----- reading the top digits

  lemma TwoDigits(s: seq<nat>, i: nat)
    requires 1 <= i < |s| && Digits(s, i + 1)
    ensures var x2 := s[i] * BASE + s[i - 1];
            x2 * W(i - 1) <= Val(s, 0, i + 1) < (x2 + 1) * W(i - 1)
  {
    ValSplit(s, 0, i - 1, i + 1);
    ValBound(s, 0, i - 1);
    assert Val(s, i + 1, i + 1) == 0;
    TopTwoBound(Val(s, 0, i - 1), W(i - 1), s[i] * BASE + s[i - 1], Val(s, 0, i + 1));
  }

  lemma TopTwoBound(low: nat, w: nat, x: nat, v: int)
    requires v == low + w * x && low < w
    ensures x * w <= v < (x + 1) * w
  {
    Distribute(x, 1, w);
  }

  /** The digit below a number's last one counts as zero. */
  function Below(s: seq<nat>, i: int): nat
    requires i < |s|
  {
    if i < 0 then 0 else s[i]
  }

  /** The top three digits of s[..i + 1), the last of them zero when there are only two. */
  function Top3(s: seq<nat>, i: nat): nat
    requires 1 <= i < |s|
  {
    (s[i] * BASE + s[i - 1]) * BASE + Below(s, i - 2)
  }

  lemma ThreeDigits(s: seq<nat>, i: nat)
    requires 1 <= i < |s| && Digits(s, i + 1)
    ensures Top3(s, i) * W(i - 1) <= BASE * Val(s, 0, i + 1) < (Top3(s, i) + 1) * W(i - 1)
  {
    if i == 1 {
      assert Val(s, 1, 2) == s[1];
      assert Top3(s, 1) == BASE * Val(s, 0, 2);
      assert W(0) == 1;
    } else {
      ThreeOf(s, i);
      ValSplit(s, 0, i - 2, i + 1);
      ValBound(s, 0, i - 2);
      Scaled3(Val(s, 0, i - 2), W(i - 2), Top3(s, i), Val(s, 0, i + 1));
    }
  }

  lemma ThreeOf(s: seq<nat>, i: nat)
    requires 2 <= i < |s|
    ensures Val(s, i - 2, i + 1) == Top3(s, i)
  {
    assert Val(s, i, i + 1) == s[i];
    assert Val(s, i - 1, i + 1) == s[i - 1] + BASE * s[i];
  }

  lemma Scaled3(low: nat, w: nat, x3: nat, v: int)
    requires low < w && v == low + w * x3
    ensures x3 * (BASE * w) <= BASE * v < (x3 + 1) * (BASE * w)
  {
    assert x3 * (BASE * w) == BASE * (w * x3);
    assert (x3 + 1) * (BASE * w) == x3 * (BASE * w) + BASE * w;
  }

  /** The top one and two digits of the (t + 1)-digit divisor s, moved up by sh digits. */
  lemma DivisorTop(s: seq<nat>, t: nat, sh: nat)
    requires t < |s| && Digits(s, t + 1)
    ensures s[t] * W(t + sh) <= Val(s, 0, t + 1) * W(sh) < (s[t] + 1) * W(t + sh)
  {
    WAdd(t, sh);
    ValTop(s, 0, t);
    ValBound(s, 0, t);
    AlignBy(Val(s, 0, t + 1), W(t), s[t], W(sh), Val(s, 0, t));
  }

  lemma DivisorTop2(s: seq<nat>, t: nat, sh: nat)
    requires t < |s| && Digits(s, t + 1)
    ensures var y2 := s[t] * BASE + Below(s, t - 1);
            y2 * W(t + sh) <= BASE * (Val(s, 0, t + 1) * W(sh)) < (y2 + 1) * W(t + sh)
  {
    var y2 := s[t] * BASE + Below(s, t - 1);
    WAdd(t, sh);
    if t == 0 {
      assert Val(s, 0, 1) == s[0];
      OneDigitUp(s[0], W(sh));
    } else {
      TwoDigits(s, t);
      AlignBase(Val(s, 0, t + 1), W(t - 1), y2, W(sh), W(t + sh));
    }
  }

  lemma OneDigitUp(d: nat, u: nat)
    requires u > 0
    ensures (d * BASE) * u <= BASE * (d * u) < (d * BASE + 1) * u
  {
    assert (d * BASE) * u == BASE * (d * u);
    Distribute(d * BASE, 1, u);
  }

  lemma AlignBase(v: int, w: nat, d: nat, u: nat, p: int)
    requires d * w <= v < (d + 1) * w && u > 0 && p == (BASE * w) * u
    ensures d * p <= BASE * (v * u) < (d + 1) * p
  {
    AlignBy(v, w, d, u, v - d * w);
    assert p == BASE * (w * u);
    assert d * p == BASE * (d * (w * u)) && (d + 1) * p == BASE * ((d + 1) * (w * u));
  }

  lemma AlignBy(v: int, w: nat, d: nat, u: nat, low: int)
    requires v == low + d * w && 0 <= low < w && u > 0
    ensures d * (w * u) <= v * u < (d + 1) * (w * u)
  {
    assert v * u == low * u + d * (w * u) by {
      assert (d * w) * u == d * (w * u);
    }
    MulMono(low + 1, w, u);
    MulMono(0, low, u);
    assert (low + 1) * u == low * u + u;
  }

  // ----- one round of the division

  /** x, y and the position i fit together: x is the rest of the dividend, y the normalised divisor of t + 1 digits. */
  ghost predicate Round(x: MpInt, y: MpInt, i: nat, t: nat)
    reads x, y
  {
    && x.Valid() && !x.neg && x.Clean() && y.Valid() && !y.neg && x != y
    && y.used == t + 1 && BASE / 4 <= y.dp[t] < BASE / 2
    && t < i < |x.dp| && x.Mag() < y.Mag() * W(i - t)
  }

  /** The rest of the dividend has no digit above position i. */
  lemma RestDigits(x: MpInt, y: MpInt, i: nat, t: nat)
    requires Round(x, y, i, t)
    ensures x.used <= i + 1 && Digits(x.dp, i + 1) && x.Mag() == Val(x.dp, 0, i + 1)
  {
    MagBounds(y);
    MulMono(y.Mag(), W(t + 1), W(i - t));
    WAdd(t + 1, i - t);
    assert W(t + 1 + (i - t)) == W(i + 1);
    UsedBelow(x, i + 1);
    ValSplit(x.dp, 0, x.used, i + 1);
    ValZeros(x.dp, x.used, i + 1);
    MulZero(W(x.used));
  }

  ghost function Rest(y: MpInt, i: nat, t: nat): nat
    requires y.used <= |y.dp| && t < i
    reads y
  {
    y.Mag() * W(i - t - 1)
  }

  lemma TopTwoThree(x: MpInt, y: MpInt, i: nat, t: nat)
    requires Round(x, y, i, t)
    ensures Digits(x.dp, i + 1)
    ensures Aligned(x.Mag(), Rest(y, i, t), W(i - 1), x.dp[i], x.dp[i] * BASE + x.dp[i - 1], Top3(x.dp, i),
                    y.dp[t], y.dp[t] * BASE + Below(y.dp, t - 1))
  {
    RestDigits(x, y, i, t);
    TwoDigits(x.dp, i);
    ThreeDigits(x.dp, i);
    DivisorTop(y.dp, t, i - t - 1);
    DivisorTop2(y.dp, t, i - t - 1);
    ShiftedDivisor(y.Mag(), i - t);
  }

  lemma ShiftedDivisor(m: nat, k: nat)
    requires k > 0
    ensures m * W(k) == BASE * (m * W(k - 1))
  {
    assert m * (BASE * W(k - 1)) == BASE * (m * W(k - 1));
  }

  /** Step 3.1: the digit suggested by the leading two digits of x and the leading digit of y. */
  method GuessDigit(xi: nat, xj: nat, yt: nat) returns (q: nat)
    requires xi < BASE && xj < BASE && 0 < yt < BASE
    ensures q < BASE && (q == BASE - 1 || q == (xi * BASE + xj) / yt)
    ensures xi == 0 ==> q * yt <= xj
  {
    if xi == yt {
      q := BASE - 1;
    } else {
      var tmp := (xi * BASE + xj) / yt;
      DivMod(xi * BASE + xj, yt);
      if tmp > BASE - 1 {
        if xi == 0 {
          MulMono(BASE, tmp, yt);
        }
        tmp := BASE - 1;
      }
      q := tmp;
    }
  }

  /** t1 of the inner loop: the two leading digits of y ... */
  method LeadingTwo(y: MpInt, t: nat) returns (t1: MpInt)
    requires y.Valid() && y.used == t + 1
    ensures fresh(t1) && t1.Valid() && t1.used == 2
    ensures t1.Mag() == y.dp[t] * BASE + Below(y.dp, t - 1)
  {
    t1 := new MpInt();
    t1.Zero();
    t1.Grow(2);
    t1.dp := t1.dp[0 := if t == 0 then 0 else y.dp[t - 1]];
    t1.dp := t1.dp[1 := y.dp[t]];
    t1.used := 2;
    assert Val(t1.dp, 1, 2) == t1.dp[1];
  }

  /** ... times the trial digit. */
  method TrialProduct(y: MpInt, t: nat, q: nat) returns (t1: MpInt)
    requires y.Valid() && y.used == t + 1 && q < BASE
    ensures fresh(t1) && t1.Valid() && t1.used <= 3
    ensures t1.Mag() == q * (y.dp[t] * BASE + Below(y.dp, t - 1))
  {
    t1 := LeadingTwo(y, t);
    SingleDigit.MulD(t1, q, t1);
  }

  /** t2 of the inner loop: the three leading digits of x, not clamped. */
  method TopThree(x: MpInt, i: nat) returns (t2: MpInt)
    requires 1 <= i < |x.dp| && Digits(x.dp, i + 1)
    ensures fresh(t2) && t2.Proper() && t2.used == 3 && t2.Mag() == Top3(x.dp, i)
  {
    t2 := new MpInt();
    t2.Grow(3);
    t2.dp := t2.dp[0 := if i < 2 then 0 else x.dp[i - 2]];
    t2.dp := t2.dp[1 := x.dp[i - 1]];
    t2.dp := t2.dp[2 := x.dp[i]];
    t2.used := 3;
    assert Val(t2.dp, 2, 3) == t2.dp[2];
    assert Val(t2.dp, 1, 3) == t2.dp[1] + BASE * t2.dp[2];
  }

  /**
   Steps 3.1 and 3.2: the trial digit, lowered while the product test fails.  It is never too small and at most one too
   large.
   */
  method EstimateDigit(x: MpInt, y: MpInt, i: nat, t: nat) returns (q: nat)
    requires Round(x, y, i, t)
    ensures q < BASE && x.Mag() < (q + 1) * Rest(y, i, t) && q * Rest(y, i, t) <= x.Mag() + Rest(y, i, t)
  {
    TopTwoThree(x, y, i, t);
    ghost var xm, s, p := x.Mag(), Rest(y, i, t), W(i - 1);
    ghost var xt, x2, x3 := x.dp[i], x.dp[i] * BASE + x.dp[i - 1], Top3(x.dp, i);
    ghost var yt, y2 := y.dp[t], y.dp[t] * BASE + Below(y.dp, t - 1);
    q := GuessDigit(x.dp[i], x.dp[i - 1], y.dp[t]);
    FirstEstimate(xm, s, p, xt, x2, x3, yt, y2, q);
    q := LowerWhileTooLarge(x, y, i, t, q);
  }

  /** The inner do-while loop; the digit is stepped modulo BASE, first up and then down again. */
  method LowerWhileTooLarge(x: MpInt, y: MpInt, i: nat, t: nat, q0: nat) returns (q: nat)
    requires Round(x, y, i, t) && Digits(x.dp, i + 1) && Candidate(x, y, i, t, q0)
    ensures q < BASE && x.Mag() < (q + 1) * Rest(y, i, t) && q * Rest(y, i, t) <= x.Mag() + Rest(y, i, t)
  {
    q := (q0 + 1) % BASE;
    var again := true;
    ghost var next: nat := q0;
    while again
      invariant again ==> q == (next + 1) % BASE && Candidate(x, y, i, t, next)
      invariant !again ==> Candidate(x, y, i, t, q) && q * Rest(y, i, t) <= x.Mag() + Rest(y, i, t)
      decreases again, next
    {
      StepDown(next);
      q := (q - 1) % BASE;
      again := TestDigit(x, y, i, t, q);
      if again {
        next := q - 1;
      }
    }
  }

  lemma StepDown(d: nat)
    requires d < BASE
    ensures ((d + 1) % BASE - 1) % BASE == d
    ensures d > 0 ==> d == (d - 1 + 1) % BASE
  {
  }

  /** A digit that is not too small, and small when the rest of the dividend has a zero on top. */
  ghost predicate Candidate(x: MpInt, y: MpInt, i: nat, t: nat, q: nat)
    requires x.used <= |x.dp| && y.used == t + 1 <= |y.dp| && t < i < |x.dp|
    reads x, y
  {
    q < BASE && x.Mag() < (q + 1) * Rest(y, i, t) && (x.dp[i] == 0 ==> q * y.dp[t] <= x.dp[i - 1])
  }

  /** The condition of the inner do-while loop. */
  method TestDigit(x: MpInt, y: MpInt, i: nat, t: nat, q: nat) returns (again: bool)
    requires Round(x, y, i, t) && Candidate(x, y, i, t, q)
    ensures again ==> q > 0 && Candidate(x, y, i, t, q - 1)
    ensures !again ==> q * Rest(y, i, t) <= x.Mag() + Rest(y, i, t)
  {
    TopTwoThree(x, y, i, t);
    ghost var xm, s, p := x.Mag(), Rest(y, i, t), W(i - 1);
    ghost var xt, x2, x3 := x.dp[i], x.dp[i] * BASE + x.dp[i - 1], Top3(x.dp, i);
    ghost var yt, y2 := y.dp[t], y.dp[t] * BASE + Below(y.dp, t - 1);
    var t1 := TrialProduct(y, t, q);
    var t2 := TopThree(x, i);
    var r := CmpMag(t1, t2);
    again := r == 1;
    if again {
      LowerEstimate(xm, s, p, xt, x2, x3, yt, y2, q);
      MulMono(q - 1, q, yt);
    } else if q * y2 <= x3 {
      PassedTest(xm, s, p, xt, x2, x3, yt, y2, q);
    } else {
      ThreeDigitBound(t1);
      StoppedEarly(xm, s, p, xt, x2, x3, yt, y2, q);
    }
  }

  lemma ThreeDigitBound(t1: MpInt)
    requires t1.Valid() && t1.used < 3
    ensures t1.Mag() < BASE * BASE
  {
    UsedBelow(t1, 2);
    assert W(2) == BASE * W(1) && W(1) == BASE * W(0);
  }

  lemma Reassociate(q: int, m: int, w: int)
    ensures (q * m) * w == q * (m * w)
  {
  }

  /**
   Step 3.3 and the correction after it: subtract the digit's multiple of y, and add y back once if that was too much.
   */
  method SubtractRound(x: MpInt, y: MpInt, i: nat, t: nat, q0: nat) returns (q: nat)
    requires Round(x, y, i, t) && i <= x.used
    requires q0 < BASE && x.Mag() < (q0 + 1) * Rest(y, i, t) && q0 * Rest(y, i, t) <= x.Mag() + Rest(y, i, t)
    modifies x
    ensures x.Valid() && !x.neg && x.Clean() && |x.dp| >= |old(x.dp)|
    ensures q < BASE && old(x.Mag()) == q * Rest(y, i, t) + x.Mag() && x.Mag() < Rest(y, i, t)
  {
    q := q0;
    ghost var rest := Rest(y, i, t);
    ghost var v := x.Mag() - q * rest;
    OffByOne(x.Mag(), q, rest, v);
    SubtractMultiple(x, y, q, i - t - 1);
    MagBounds(x);
    if x.neg {
      AddBack(x, y, i - t - 1);
      MagBounds(x);
      q := (q - 1) % BASE;
    }
  }

  lemma OffByOne(xm: int, q0: int, rest: int, v: int)
    requires 0 <= q0 < BASE && 0 <= xm < (q0 + 1) * rest && q0 * rest <= xm + rest && v == xm - q0 * rest
    ensures -rest <= v < rest
    ensures v >= 0 ==> xm == q0 * rest + v
    ensures v < 0 ==> q0 > 0 && (q0 - 1) % BASE == q0 - 1 && xm == (q0 - 1) * rest + (v + rest)
  {
    Distribute(q0, 1, rest);
    Distribute(q0 - 1, 1, rest);
    if q0 == 0 {
      MulZero(rest);
    }
  }

  method SubtractMultiple(x: MpInt, y: MpInt, q: nat, s: nat)
    requires x.Valid() && !x.neg && x.Clean() && y.Valid() && !y.neg && x != y && q < BASE && s < x.used
    modifies x
    ensures x.Valid() && x.Clean() && |x.dp| >= |old(x.dp)|
    ensures x.Value() == old(x.Mag()) - q * (y.Mag() * W(s))
  {
    var t1 := new MpInt();
    SingleDigit.MulD(y, q, t1);
    MagBounds(t1);
    SignOfProduct(y.Mag(), q, t1.Value());
    Reassociate(q, y.Mag(), W(s));
    Lshd(t1, s);
    AddSub.Sub(x, t1, x);
  }

  lemma SignOfProduct(m: nat, q: nat, v: int)
    requires v == m * q
    ensures v >= 0
  {
  }

  method AddBack(x: MpInt, y: MpInt, s: nat)
    requires x.Valid() && x.Clean() && y.Valid() && !y.neg && x != y && y.used > 0
    modifies x
    ensures x.Valid() && x.Clean() && |x.dp| >= |old(x.dp)|
    ensures x.Value() == old(x.Value()) + y.Mag() * W(s)
  {
    var t1 := new MpInt();
    Copy(y, t1);
    Lshd(t1, s);
    AddSub.Add(x, t1, x);
  }

  // ----- normalisation and the top digit

  /** The divisor's top digit, in terms of its value. */
  ghost predicate Normal(y: MpInt, t: nat)
    reads y
  {
    y.Valid() && !y.neg && y.used == t + 1 && BASE / 4 * W(t) <= y.Mag() < BASE / 2 * W(t)
  }

  lemma NormalDigit(y: MpInt, t: nat)
    requires Normal(y, t)
    ensures BASE / 4 <= y.dp[t] < BASE / 2
  {
    ValTop(y.dp, 0, t);
    ValBound(y.dp, 0, t);
    DigitRange(y.dp[t], Val(y.dp, 0, t), W(t), BASE / 4, BASE / 2);
  }

  lemma DigitRange(d: nat, low: nat, w: nat, lo: nat, hi: nat)
    requires low < w && lo * w <= low + d * w < hi * w
    ensures lo <= d < hi
  {
    if d < lo {
      MulMono(d + 1, lo, w);
    } else if d >= hi {
      MulMono(hi, d, w);
    }
  }

  /** Scale x and y by the same power of two so that y's bit count is DIGIT_BIT - 1 modulo DIGIT_BIT. */
  method Normalise(x: MpInt, y: MpInt) returns (norm: nat)
    requires x.Valid() && !x.neg && x.Clean() && y.Valid() && !y.neg && y.used > 0 && x != y
    modifies x, y
    ensures x.Valid() && !x.neg && x.Clean() && y.used > 0 && Normal(y, y.used - 1)
    ensures x.Mag() == old(x.Mag()) * Pow2(norm) && y.Mag() == old(y.Mag()) * Pow2(norm)
    ensures x.used <= old(x.used) + 1
  {
    var r := Bits.CountBits(y);
    norm := r % DIGIT_BIT;
    if norm < DIGIT_BIT - 1 {
      norm := DIGIT_BIT - 1 - norm;
      ScaleBoth(x, y, norm, r);
    } else {
      norm := 0;
      AlreadyNormal(x, y, r);
    }
  }

  lemma AlreadyNormal(x: MpInt, y: MpInt, r: nat)
    requires x.used <= |x.dp| && y.Valid() && !y.neg
    requires r > 0 && Pow2(r - 1) <= y.Mag() < Pow2(r) && r % DIGIT_BIT == DIGIT_BIT - 1
    ensures y.used > 0 && Normal(y, y.used - 1) && x.Mag() == x.Mag() * Pow2(0) && y.Mag() == y.Mag() * Pow2(0)
  {
    NormalBits(y.Mag(), r, 0, y);
  }

  method ScaleBoth(x: MpInt, y: MpInt, norm: nat, ghost r: nat)
    requires x.Valid() && !x.neg && x.Clean() && y.Valid() && !y.neg && x != y && norm < DIGIT_BIT
    requires r > 0 && Pow2(r - 1) <= y.Mag() < Pow2(r) && (r + norm) % DIGIT_BIT == DIGIT_BIT - 1
    modifies x, y
    ensures x.Valid() && !x.neg && x.Clean() && x.used <= old(x.used) + 1
    ensures y.used > 0 && Normal(y, y.used - 1)
    ensures x.Mag() == old(x.Mag()) * Pow2(norm) && y.Mag() == old(y.Mag()) * Pow2(norm)
  {
    SingleDigit.Mul2d(x, norm, x);
    SingleDigit.Mul2d(y, norm, y);
    NormalBits(old(y.Mag()), r, norm, y);
  }

  lemma NormalBits(m: nat, r: nat, norm: nat, y: MpInt)
    requires r > 0 && Pow2(r - 1) <= m < Pow2(r) && (r + norm) % DIGIT_BIT == DIGIT_BIT - 1
    requires y.Valid() && !y.neg && y.Mag() == m * Pow2(norm)
    ensures y.used > 0 && Normal(y, y.used - 1)
  {
    var k := (r + norm) / DIGIT_BIT;
    NormalRange(m, r, norm, k);
    DigitCount(y, k);
  }

  lemma NormalRange(m: nat, r: nat, norm: nat, k: nat)
    requires r > 0 && Pow2(r - 1) <= m < Pow2(r) && r + norm == DIGIT_BIT * k + 27
    ensures BASE / 4 * W(k) <= m * Pow2(norm) < BASE / 2 * W(k) && W(k) <= m * Pow2(norm) < W(k + 1)
  {
    Pow2Add(r - 1, norm);
    Pow2Add(r, norm);
    MulMono(Pow2(r - 1), m, Pow2(norm));
    MulLess(m, Pow2(r), Pow2(norm));
    WIsPow2(k);
    Pow2Add(DIGIT_BIT * k, 26);
    Pow2Add(DIGIT_BIT * k, 27);
    QuarterBase();
  }

  lemma QuarterBase()
    ensures Pow2(26) == BASE / 4 && Pow2(27) == BASE / 2
  {
    Pow2Digit();
    assert Pow2(28) == 2 * Pow2(27) && Pow2(27) == 2 * Pow2(26);
  }

  lemma DigitCount(y: MpInt, k: nat)
    requires y.Valid() && W(k) <= y.Mag() < W(k + 1)
    ensures y.used == k + 1
  {
    UsedBelow(y, k);
    UsedBelow(y, k + 1);
  }

  /** The loop before the rounds: the digit of the quotient at n - t, found by repeated subtraction. */
  method TopDigit(x: MpInt, y: MpInt, n: nat, t: nat) returns (count: nat)
    requires x.Valid() && !x.neg && x.Clean() && x.used == n + 1 && Normal(y, t) && t <= n && x != y
    modifies x, y
    ensures x.Valid() && !x.neg && x.Clean() && |x.dp| >= |old(x.dp)| && Normal(y, t) && y.Mag() == old(y.Mag())
    ensures count < BASE && old(x.Mag()) == count * (y.Mag() * W(n - t)) + x.Mag() && x.Mag() < y.Mag() * W(n - t)
  {
    ghost var xm, ym, s := x.Mag(), y.Mag(), y.Mag() * W(n - t);
    MagBounds(x);
    MagBounds(y);
    Lshd(y, n - t);
    count := SubtractAll(x, y, s);
    Rshd(y, n - t);
    UnshiftNormal(ym, W(n - t), s);
    FewSubtractions(count, ym, n, t, x.Mag(), xm);
  }

  /** "while (x >= y*b**n-t) do { q[n-t] += 1; x -= y*b**{n-t} }", where s is the shifted divisor. */
  method SubtractAll(x: MpInt, y: MpInt, ghost s: nat) returns (count: nat)
    requires x.Valid() && !x.neg && x.Clean() && y.Valid() && !y.neg && y.Mag() == s > 0 && x != y
    modifies x
    ensures x.Valid() && !x.neg && x.Clean() && |x.dp| >= |old(x.dp)|
    ensures old(x.Mag()) == count * s + x.Mag() && x.Mag() < s
  {
    ghost var xm := x.Mag();
    count := 0;
    var r := Cmp(x, y);
    while r != -1
      invariant x.Valid() && !x.neg && x.Clean() && |x.dp| >= |old(x.dp)|
      invariant xm == count * s + x.Mag()
      invariant r == -1 <==> x.Mag() < s
      decreases x.Mag()
    {
      count := count + 1;
      AddSub.Sub(x, y, x);
      MagBounds(x);
      Distribute(count - 1, 1, s);
      r := Cmp(x, y);
    }
  }

  lemma UnshiftNormal(m: nat, w: nat, s: int)
    requires s == m * w && w > 0
    ensures s / w == m
  {
    DivUnique(s, w, m, 0);
  }

  lemma FewSubtractions(count: nat, ym: nat, n: nat, t: nat, rest: nat, xm: int)
    requires t <= n && xm == count * (ym * W(n - t)) + rest && xm < W(n + 1) && BASE / 4 * W(t) <= ym
    ensures count < BASE
  {
    MulMono(BASE / 4 * W(t), ym, W(n - t));
    WAdd(t, n - t);
    Reassociate(BASE / 4, W(t), W(n - t));
    FewSteps(count, ym * W(n - t), W(n), rest, xm);
  }

  lemma FewSteps(count: nat, s: int, w: nat, rest: nat, xm: int)
    requires xm == count * s + rest && xm < BASE * w && BASE / 4 * w <= s && w > 0
    ensures count < BASE
  {
    if count >= BASE {
      MulMono(BASE, count, s);
    }
  }

  // ----- the whole division

  lemma NextRound(x: int, q: nat, m: nat, w: nat, head: nat, all: int)
    requires all == head * m + (q * (m * w) + x)
    ensures all == (head + q * w) * m + x
  {
    assert (head + q * w) * m == head * m + q * (m * w) by {
      assert (q * w) * m == q * (m * w);
    }
  }

  /**
   The loop over the digit positions.  `qd` are the quotient digits; a round whose dividend is already short enough
   is skipped and leaves a zero.
   */
  method DigitRounds(x: MpInt, y: MpInt, n: nat, t: nat, q0: seq<nat>, ghost all: int) returns (qd: seq<nat>)
    requires x.Valid() && !x.neg && x.Clean() && Normal(y, t) && x != y && t <= n < |x.dp|
    requires n - t < |q0| && Digits(q0, |q0|) && (forall k :: 0 <= k < n - t ==> q0[k] == 0)
    requires all == Val(q0, 0, |q0|) * y.Mag() + x.Mag() && x.Mag() < y.Mag() * W(n - t)
    modifies x
    ensures x.Valid() && !x.neg && x.Clean() && |x.dp| > 0
    ensures |qd| == |q0| && Digits(qd, |qd|) && all == Val(qd, 0, |qd|) * y.Mag() + x.Mag() && x.Mag() < y.Mag()
  {
    qd := q0;
    NormalDigit(y, t);
    var i := n;
    while i >= t + 1
      invariant t <= i <= n < |x.dp| && x.Valid() && !x.neg && x.Clean()
      invariant |qd| == |q0| && Digits(qd, |qd|) && (forall k :: 0 <= k < i - t ==> qd[k] == 0)
      invariant all == Val(qd, 0, |qd|) * y.Mag() + x.Mag() && x.Mag() < y.Mag() * W(i - t)
    {
      if i > x.used {
        ShortDividend(x, y, i, t);
      } else {
        var q := EstimateDigit(x, y, i, t);
        q := SubtractRound(x, y, i, t, q);
        ValSet(qd, i - t - 1, q, 0, |qd|);
        NextRound(x.Mag(), q, y.Mag(), W(i - t - 1), Val(qd, 0, |qd|), all);
        qd := qd[i - t - 1 := q];
      }
      i := i - 1;
    }
    assert y.Mag() * W(0) == y.Mag();
  }

  /** Skipping a round is right: the dividend is already below the divisor's next multiple. */
  lemma ShortDividend(x: MpInt, y: MpInt, i: nat, t: nat)
    requires x.Valid() && Normal(y, t) && t < i && x.used < i
    ensures x.Mag() < y.Mag() * W(i - t - 1)
  {
    UsedBelow(x, i - 1);
    MulMono(W(t), y.Mag(), W(i - t - 1));
    WAdd(t, i - t - 1);
  }

  /** What remains of a dividend scaled by p is p times the remainder. */
  lemma Unscale(a: nat, b: nat, p: nat, q: nat, rest: nat, ap: int, bp: int)
    requires p > 0 && ap == a * p && bp == b * p && ap == q * bp + rest && rest < bp
    ensures 0 <= rest / p < b && a == q * b + rest / p
  {
    var r := a - q * b;
    assert rest == r * p by {
      assert q * (b * p) == (q * b) * p;
    }
    DivUnique(rest, p, r, 0);
    MulCancelLess(r, b, p);
    MulCancelLess(-1, r, p);
  }

  /** "mp_init_copy (&x, a)" and "x.sign = MP_ZPOS". */
  method CopyMagnitude(a: MpInt) returns (x: MpInt)
    requires a.Valid()
    ensures fresh(x) && x.Valid() && !x.neg && x.Clean() && x.Mag() == a.Mag() && x.used == a.used
  {
    x := new MpInt();
    Copy(a, x);
    ghost var was := x.dp;
    x.neg := false;
    ValSame(x.dp, was, 0, a.used);
  }

  /**
   The body of mp_div after its two early exits: q digits and the rest x of the scaled dividend, with the scale.
   */
  method DivideMagnitudes(a: MpInt, b: MpInt) returns (qd: seq<nat>, x: MpInt, norm: nat, ghost rest: nat)
    requires a.Valid() && b.Valid() && b.used > 0 && a.Mag() >= b.Mag()
    ensures fresh(x) && x.Valid() && !x.neg && x.Clean() && |x.dp| > 0
    ensures Digits(qd, |qd|) && rest == x.Mag() / Pow2(norm)
    ensures a.Mag() == Val(qd, 0, |qd|) * b.Mag() + rest && rest < b.Mag()
  {
    var size := a.used + 2;
    x := CopyMagnitude(a);
    var y := CopyMagnitude(b);
    norm := Normalise(x, y);
    MulMono(b.Mag(), a.Mag(), Pow2(norm));
    UsedMono(y, x);
    qd := DivideNormal(x, y, size);
    Unscale(a.Mag(), b.Mag(), Pow2(norm), Val(qd, 0, |qd|), x.Mag(), a.Mag() * Pow2(norm), y.Mag());
    rest := x.Mag() / Pow2(norm);
  }

  /** Top digit and rounds, once x and y are normalised. */
  method DivideNormal(x: MpInt, y: MpInt, size: nat) returns (qd: seq<nat>)
    requires x.Valid() && !x.neg && x.Clean() && x != y && y.used > 0 && Normal(y, y.used - 1)
    requires y.used <= x.used <= size
    modifies x, y
    ensures x.Valid() && !x.neg && x.Clean() && |x.dp| > 0
    ensures Digits(qd, |qd|) && y.used <= |y.dp| && y.Mag() == old(y.Mag())
    ensures old(x.Mag()) == Val(qd, 0, |qd|) * y.Mag() + x.Mag() && x.Mag() < y.Mag()
  {
    var n, t := x.used - 1, y.used - 1;
    ghost var all := x.Mag();
    var count := TopDigit(x, y, n, t);
    qd := seq(size, _ => 0);
    ValZeros(qd, 0, size);
    ValSet(qd, n - t, count, 0, size);
    NextRound(x.Mag(), count, y.Mag(), W(n - t), 0, all);
    qd := qd[n - t := count];
    qd := DigitRounds(x, y, n, t, qd, all);
  }

  /**
   mp_div: c and d, where wanted, become the quotient rounded towards zero and the remainder with the dividend's sign;
   false is MP_VAL.  c or d may be a or b.
   */
  method Div(a: MpInt, b: MpInt, c: MpInt?, d: MpInt?) returns (ok: bool)
    requires a.Valid() && b.Valid() && (c != null ==> c.Valid() && c != d) && (d != null ==> d.Valid())
    modifies c, d
    ensures ok == (old(b.Value()) != 0)
    ensures ok && c != null ==> c.Valid() && c.Value() == TQuot(old(a.Value()), old(b.Value()))
    ensures ok && d != null ==> d.Valid() && d.Value() == TRem(old(a.Value()), old(b.Value()))
    ensures d != null && old(d.Clean()) ==> d.Clean()
    ensures d != null && old(|d.dp|) > 0 ==> |d.dp| > 0
    ensures !ok && c != null ==> c.Valid() && c.Value() == old(c.Value())
    ensures !ok && d != null ==> d.Valid() && d.Value() == old(d.Value())
  {
    MagBounds(b);
    if b.used == 0 {
      return false;
    }
    var r := CmpMag(a, b);
    if r == -1 {
      SmallDividend(a, b, c, d);
    } else {
      var neg, sign := a.neg != b.neg, a.neg;
      MagBounds(a);
      var qd, x, norm;
      ghost var rest;
      qd, x, norm, rest := DivideMagnitudes(a, b);
      SignedQuotient(a.Value(), b.Value(), Val(qd, 0, |qd|), rest);
      StoreResults(qd, x, norm, neg, sign, rest, c, d);
    }
    return true;
  }

  /** The early exit for |a| < |b|. */
  method SmallDividend(a: MpInt, b: MpInt, c: MpInt?, d: MpInt?)
    requires a.Valid() && b.Valid() && a.Mag() < b.Mag()
    requires (c != null ==> c.Valid() && c != d) && (d != null ==> d.Valid())
    modifies c, d
    ensures c != null ==> c.Valid() && c.Value() == TQuot(old(a.Value()), old(b.Value()))
    ensures d != null ==> d.Valid() && d.Value() == TRem(old(a.Value()), old(b.Value()))
    ensures d != null ==> (old(d.Clean()) ==> d.Clean()) && |d.dp| >= old(|d.dp|)
  {
    TDivision(a.Value(), b.Value(), 0, a.Value());
    if d != null {
      Copy(a, d);
    }
    if c != null {
      c.Zero();
    }
  }

  /** The end of mp_div: signs, and the remainder scaled back. */
  method StoreResults(qd: seq<nat>, x: MpInt, norm: nat, neg: bool, sign: bool, ghost rest: nat, c: MpInt?, d: MpInt?)
    requires Digits(qd, |qd|) && Val(qd, 0, |qd|) > 0 && x.Valid() && x.Clean() && x != c && x != d && |x.dp| > 0
    requires rest == x.Mag() / Pow2(norm)
    requires (c != null ==> c.Valid() && c != d) && (d != null ==> d.Valid())
    modifies x, c, d
    ensures c != null ==> c.Valid() && c.Value() == if neg then -(Val(qd, 0, |qd|) as int) else Val(qd, 0, |qd|)
    ensures d != null ==> d.Valid() && d.Clean() && |d.dp| > 0 && d.Value() == if sign then -(rest as int) else rest
  {
    x.neg := if x.used == 0 then false else sign;
    if c != null {
      StoreQuotient(c, qd, neg);
    }
    if d != null {
      StoreRemainder(x, norm, d);
    }
  }

  /** "mp_div_2d (&x, norm, &x, NULL)", "mp_exch (&x, d)" */
  method StoreRemainder(x: MpInt, norm: nat, d: MpInt)
    requires x.Valid() && x.Clean() && x != d && |x.dp| > 0
    modifies x, d
    ensures d.Valid() && d.Clean() && |d.dp| > 0
    ensures var rest := old(x.Mag()) / Pow2(norm); d.Value() == if old(x.neg) then -(rest as int) else rest
  {
    Bits.Div2d(x, norm, x, null);
    MagBounds(x);
    Move(x, d);
  }

  lemma SignedQuotient(a: int, b: int, q: nat, r: nat)
    requires b != 0 && Abs(a) == q * Abs(b) + r && r < Abs(b) && Abs(a) >= Abs(b)
    ensures q > 0
    ensures TQuot(a, b) == if (a < 0) == (b < 0) then q else -(q as int)
    ensures TRem(a, b) == if a < 0 then -(r as int) else r
  {
    DivUnique(Abs(a), Abs(b), q, r);
    if q == 0 {
      MulZero(Abs(b));
    }
  }

  /** "mp_clamp (&q); mp_exch (&q, c); c->sign = neg". */
  method StoreQuotient(c: MpInt, qd: seq<nat>, neg: bool)
    requires Digits(qd, |qd|) && Val(qd, 0, |qd|) > 0
    modifies c
    ensures c.Valid() && c.Mag() == Val(qd, 0, |qd|) && c.neg == neg
  {
    c.neg, c.used, c.dp := false, |qd|, qd;
    c.Clamp();
    c.neg := neg;
  }
}
