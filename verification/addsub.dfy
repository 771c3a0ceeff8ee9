/** Addition and subtraction: carry and borrow loops, and the signed operations over them. */
module AddSub {
  import Arith
  import opened Radix
  import opened MpInts

  /** The first n digits of s, zero-extended to m digits. */
  ghost function Padded(s: seq<nat>, n: nat, m: nat): (t: seq<nat>)
    requires n <= |s| && n <= m
    ensures |t| == m
  {
    s[..n] + seq(m - n, _ => 0)
  }

  lemma PaddedVal(s: seq<nat>, n: nat, m: nat)
    requires n <= |s| && n <= m
    ensures Val(Padded(s, n, m), 0, m) == Val(s, 0, n)
  {
    var t := Padded(s, n, m);
    ValSplit(t, 0, n, m);
    ValSame(t, s, 0, n);
    ValZeros(t, n, m);
  }

  /** One column of an addition, scaled by its weight p. */
  lemma CarryStep(p: nat, x: nat, y: nat, u: nat, d: nat, u': nat)
    requires x + y + u == d + BASE * u'
    ensures x * p + y * p + u * p == d * p + u' * (BASE * p)
  {
    assert (x + y + u) * p == (d + BASE * u') * p;
  }

  /** One column of a subtraction, scaled by its weight p. */
  lemma BorrowStep(p: nat, x: nat, y: nat, u: nat, d: nat, u': nat)
    requires x - y - u == d - BASE * u'
    ensures x * p - y * p - u * p == d * p - u' * (BASE * p)
  {
    assert (x - y - u) * p == (d - BASE * u') * p;
  }

  /** c holds the sum of the first i columns of a and b, up to the carry u. */
  ghost predicate Added(c: seq<nat>, a: seq<nat>, b: seq<nat>, i: nat, u: nat)
    requires i <= |c| && i <= |a| && i <= |b|
  {
    Digits(c, i) && Val(c, 0, i) + u * W(i) == Val(a, 0, i) + Val(b, 0, i)
  }

  /** c holds the difference of the first i columns of a and b, up to the borrow u. */
  ghost predicate Subtracted(c: seq<nat>, a: seq<nat>, b: seq<nat>, i: nat, u: nat)
    requires i <= |c| && i <= |a| && i <= |b|
  {
    Digits(c, i) && Val(c, 0, i) - u * W(i) == Val(a, 0, i) - Val(b, 0, i)
  }

  lemma AddColumn(c: seq<nat>, c': seq<nat>, a: seq<nat>, b: seq<nat>, i: nat, u: nat, u': nat)
    requires i < |c| && i < |c'| && i < |a| && i < |b| && Added(c, a, b, i, u)
    requires forall k :: 0 <= k < i ==> c'[k] == c[k]
    requires a[i] + b[i] + u == c'[i] + BASE * u' && c'[i] < BASE
    ensures Added(c', a, b, i + 1, u')
  {
    ValSame(c, c', 0, i);
    ValTop(c', 0, i);
    ValTop(a, 0, i);
    ValTop(b, 0, i);
    CarryStep(W(i), a[i], b[i], u, c'[i], u');
  }

  /** The top bit of the wrapped difference is the borrow, its low bits are the digit. */
  lemma BorrowWord(x: nat, y: nat, u: nat)
    requires x < BASE && y < BASE && u <= 1
    ensures var t := (x - y - u) % DIGIT_WRAP;
            t / 0x8000_0000 <= 1 && x - y - u == t % BASE - BASE * (t / 0x8000_0000)
  {
  }

  lemma SubColumn(c: seq<nat>, c': seq<nat>, a: seq<nat>, b: seq<nat>, i: nat, u: nat, u': nat)
    requires i < |c| && i < |c'| && i < |a| && i < |b| && Subtracted(c, a, b, i, u)
    requires forall k :: 0 <= k < i ==> c'[k] == c[k]
    requires a[i] - b[i] - u == c'[i] - BASE * u' && c'[i] < BASE
    ensures Subtracted(c', a, b, i + 1, u')
  {
    ValSame(c, c', 0, i);
    ValTop(c', 0, i);
    ValTop(a, 0, i);
    ValTop(b, 0, i);
    BorrowStep(W(i), a[i], b[i], u, c'[i], u');
  }

  /** s_mp_add: c = |a| + |b|; c may be a or b. */
  method SAdd(a: MpInt, b: MpInt, c: MpInt)
    requires a.Proper() && b.Proper() && c.used <= |c.dp|
    modifies c
    ensures c.Valid() && c.Mag() == old(a.Mag()) + old(b.Mag())
    ensures c.neg == (old(c.neg) && c.used > 0)
    ensures c.used <= old(if a.used > b.used then a.used else b.used) + 1
    ensures |c.dp| >= |old(c.dp)|
    ensures old(c.Clean()) ==> c.Clean()
    ensures ZeroReads(c)
  {
    if a.used > b.used {
      AddSorted(b, a, c);
    } else {
      AddSorted(a, b, c);
    }
  }

  /** The body of s_mp_add once the operands are sorted by their digit counts. */
  method AddSorted(a: MpInt, x: MpInt, c: MpInt)
    requires a.Proper() && x.Proper() && c.used <= |c.dp| && a.used <= x.used
    modifies c
    ensures c.Valid() && c.Mag() == old(a.Mag()) + old(x.Mag())
    ensures c.neg == (old(c.neg) && c.used > 0)
    ensures c.used <= old(x.used) + 1
    ensures |c.dp| >= |old(c.dp)|
    ensures old(c.Clean()) ==> c.Clean()
    ensures ZeroReads(c)
  {
    var min, max := a.used, x.used;
    ghost var A, X := Padded(a.dp, min, max), Padded(x.dp, max, max);
    PaddedVal(a.dp, min, max);
    PaddedVal(x.dp, max, max);
    c.Grow(max + 1);
    var olduse := c.used;
    c.used := max + 1;
    var u, i := AddLoops(a, x, c, min, max, A, X);
    StoreCarry(c, i, u, olduse);
  }

  /** The two digit loops of s_mp_add: the common digits, then the longer operand's own. */
  method AddLoops(a: MpInt, x: MpInt, c: MpInt, min: nat, max: nat, ghost A: seq<nat>, ghost X: seq<nat>)
    returns (u: nat, i: nat)
    requires min <= max == |A| == |X| && max < |c.dp| && Digits(A, max) && Digits(X, max)
    requires min <= |a.dp| && (forall k :: 0 <= k < min ==> a.dp[k] == A[k])
    requires max <= |x.dp| && (forall k :: 0 <= k < max ==> x.dp[k] == X[k])
    requires forall k :: min <= k < max ==> A[k] == 0
    modifies c`dp
    ensures u <= 1 && i == max && |c.dp| == |old(c.dp)| && Added(c.dp, A, X, max, u)
    ensures forall k :: max <= k < |c.dp| ==> c.dp[k] == old(c.dp)[k]
  {
    u, i := 0, 0;
    while i < min
      invariant i <= min && u <= 1 && |c.dp| == |old(c.dp)|
      invariant min <= |a.dp| && forall k :: i <= k < min ==> a.dp[k] == A[k]
      invariant max <= |x.dp| && forall k :: i <= k < max ==> x.dp[k] == X[k]
      invariant forall k :: max <= k < |c.dp| ==> c.dp[k] == old(c.dp)[k]
      invariant Added(c.dp, A, X, i, u)
    {
      ghost var before, u0 := c.dp, u;
      c.dp := c.dp[i := a.dp[i] + x.dp[i] + u];
      u := c.dp[i] / BASE;
      c.dp := c.dp[i := c.dp[i] % BASE];
      AddColumn(before, c.dp, A, X, i, u0, u);
      i := i + 1;
    }
    if min != max {
      while i < max
        invariant min <= i <= max && u <= 1 && |c.dp| == |old(c.dp)|
        invariant max <= |x.dp| && forall k :: i <= k < max ==> x.dp[k] == X[k]
        invariant forall k :: max <= k < |c.dp| ==> c.dp[k] == old(c.dp)[k]
        invariant Added(c.dp, A, X, i, u)
      {
        ghost var before, u0 := c.dp, u;
        c.dp := c.dp[i := x.dp[i] + u];
        u := c.dp[i] / BASE;
        c.dp := c.dp[i := c.dp[i] % BASE];
        AddColumn(before, c.dp, A, X, i, u0, u);
        i := i + 1;
      }
    }
  }

  /** "add carry": the carry becomes the top digit. */
  method StoreCarry(c: MpInt, i: nat, u: nat, olduse: nat)
    requires c.used == i + 1 <= |c.dp| && Digits(c.dp, i) && u < BASE && olduse <= |c.dp|
    modifies c
    ensures c.Valid() && c.Mag() == Val(old(c.dp), 0, i) + u * W(i) && c.used <= i + 1
    ensures c.neg == (old(c.neg) && c.used > 0) && |c.dp| == |old(c.dp)|
    ensures (forall k :: olduse <= k < |old(c.dp)| && i < k ==> old(c.dp)[k] == 0) ==> c.Clean()
    ensures ZeroReads(c)
  {
    c.dp := c.dp[i := u];
    ValSame(old(c.dp), c.dp, 0, i);
    ValTop(c.dp, 0, i);
    c.Settle(c.used, olduse);
  }

  /**
   s_mp_sub: c = |a| - |b|, modulo the range of a's digits; c may be a or b.  The source asks for |a| >= |b|, and
   then this is the difference; otherwise the last borrow is lost.  The borrow of a column is the top bit of the
   unsigned difference of two machine words.
   */
  method SSub(a: MpInt, b: MpInt, c: MpInt)
    requires a.Proper() && b.Proper() && c.used <= |c.dp| && b.used <= a.used
    modifies c
    ensures c.Valid() && c.Mag() == (old(a.Mag()) - old(b.Mag())) % W(old(a.used))
    ensures old(a.Mag()) >= old(b.Mag()) ==> c.Mag() == old(a.Mag()) - old(b.Mag())
    ensures c.neg == (old(c.neg) && c.used > 0)
    ensures c.used <= old(a.used)
    ensures |c.dp| >= |old(c.dp)|
    ensures old(c.Clean()) ==> c.Clean()
    ensures (old(a.used) > 0 ==> ZeroReads(c)) && LowKept(c, old(c.used), old(c.dp))
  {
    var min, max := b.used, a.used;
    ghost var A, B := Padded(a.dp, a.used, max), Padded(b.dp, b.used, max);
    PaddedVal(a.dp, a.used, max);
    PaddedVal(b.dp, b.used, max);
    c.Grow(max);
    var olduse := c.used;
    c.used := max;
    ghost var u := SubLoops(a, b, c, min, max, A, B);
    LostBorrow(c.dp, A, B, max, u);
    c.Settle(c.used, olduse);
  }

  /** A borrow out of the last column wraps the difference around. */
  lemma LostBorrow(c: seq<nat>, a: seq<nat>, b: seq<nat>, n: nat, u: nat)
    requires n <= |c| && n <= |a| && n <= |b| && u <= 1 && Subtracted(c, a, b, n, u)
    requires Digits(a, n) && Digits(b, n)
    ensures Val(c, 0, n) == (Val(a, 0, n) - Val(b, 0, n)) % W(n)
    ensures Val(a, 0, n) >= Val(b, 0, n) ==> Val(c, 0, n) == Val(a, 0, n) - Val(b, 0, n)
  {
    ValBound(c, 0, n);
    ValBound(a, 0, n);
    WrapDifference(Val(a, 0, n) - Val(b, 0, n), Val(c, 0, n), u, W(n));
  }

  lemma WrapDifference(x: int, v: nat, u: nat, w: nat)
    requires v < w && u <= 1 && v - u * w == x < w
    ensures v == x % w && (x >= 0 ==> v == x)
  {
    Arith.DivUnique(x, w, -(u as int), v);
  }

  /** The loop body of s_mp_sub: the digit that is stored and the borrow. */
  method BorrowDigit(x: nat, y: nat, u0: nat) returns (d: nat, u: nat)
    requires x < BASE && y < BASE && u0 <= 1
    ensures d < BASE && u <= 1 && x - y - u0 == d - BASE * u
  {
    BorrowWord(x, y, u0);
    var t := (x - y - u0) % DIGIT_WRAP;
    u := t / 0x8000_0000;
    d := t % BASE;
  }

  /** The two digit loops of s_mp_sub; the borrow out of the last column is returned. */
  method SubLoops(a: MpInt, b: MpInt, c: MpInt, min: nat, max: nat, ghost A: seq<nat>, ghost B: seq<nat>)
    returns (u: nat)
    requires min <= max == |A| == |B| && max <= |c.dp| && Digits(A, max) && Digits(B, max)
    requires max <= |a.dp| && (forall k :: 0 <= k < max ==> a.dp[k] == A[k])
    requires min <= |b.dp| && (forall k :: 0 <= k < min ==> b.dp[k] == B[k])
    requires forall k :: min <= k < max ==> B[k] == 0
    modifies c`dp
    ensures u <= 1 && |c.dp| == |old(c.dp)| && Subtracted(c.dp, A, B, max, u)
    ensures forall k :: max <= k < |c.dp| ==> c.dp[k] == old(c.dp)[k]
  {
    u := 0;
    var i: nat := 0;
    while i < min
      invariant i <= min && u <= 1 && |c.dp| == |old(c.dp)|
      invariant max <= |a.dp| && forall k :: i <= k < max ==> a.dp[k] == A[k]
      invariant min <= |b.dp| && forall k :: i <= k < min ==> b.dp[k] == B[k]
      invariant forall k :: max <= k < |c.dp| ==> c.dp[k] == old(c.dp)[k]
      invariant Subtracted(c.dp, A, B, i, u)
    {
      ghost var before, u0 := c.dp, u;
      var d;
      d, u := BorrowDigit(a.dp[i], b.dp[i], u);
      c.dp := c.dp[i := d];
      SubColumn(before, c.dp, A, B, i, u0, u);
      i := i + 1;
    }
    while i < max
      invariant min <= i <= max && u <= 1 && |c.dp| == |old(c.dp)|
      invariant max <= |a.dp| && forall k :: i <= k < max ==> a.dp[k] == A[k]
      invariant forall k :: max <= k < |c.dp| ==> c.dp[k] == old(c.dp)[k]
      invariant Subtracted(c.dp, A, B, i, u)
    {
      ghost var before, u0 := c.dp, u;
      var d;
      d, u := BorrowDigit(a.dp[i], 0, u);
      c.dp := c.dp[i := d];
      SubColumn(before, c.dp, A, B, i, u0, u);
      i := i + 1;
    }
  }

  /**
   What mp_add and mp_sub leave in a result whose operands have opposite signs: mp_cmp_mag picks the subtrahend.  On
   clamped operands the digit counts agree with the magnitudes and this is the exact difference.
   */
  ghost predicate Less(ua: nat, ma: nat, ub: nat, mb: nat) {
    ua < ub || (ua == ub && ma < mb)
  }

  ghost predicate Difference(ua: nat, ma: nat, sa: bool, ub: nat, mb: nat, sb: bool, m: nat, neg: bool) {
    if Less(ua, ma, ub, mb) then m == (mb - ma) % W(ub) && neg == (sb && m > 0)
    else m == (ma - mb) % W(ua) && neg == (sa && m > 0)
  }

  /** mp_add; c may be a or b. */
  method Add(a: MpInt, b: MpInt, c: MpInt)
    requires a.Proper() && b.Proper() && c.used <= |c.dp|
    modifies c
    ensures c.Valid()
    ensures old(a.neg) == old(b.neg) ==> c.Value() == old(a.Value()) + old(b.Value())
    ensures old(a.Clamped() && b.Clamped()) ==> c.Value() == old(a.Value()) + old(b.Value())
    ensures old(a.neg) != old(b.neg) ==>
              Difference(old(a.used), old(a.Mag()), old(a.neg), old(b.used), old(b.Mag()), old(b.neg), c.Mag(), c.neg)
    ensures c.used <= old(if a.used > b.used then a.used else b.used) + 1
    ensures |c.dp| >= |old(c.dp)|
    ensures old(c.Clean()) ==> c.Clean()
    ensures LowKept(c, old(c.used), old(c.dp))
  {
    if a.neg == b.neg {
      c.neg := a.neg;
      SAdd(a, b, c);
    } else {
      SubtractSmaller(a, b, c, a.neg, b.neg);
    }
  }

  /** The branch of mp_add and mp_sub that subtracts the smaller magnitude from the larger. */
  method SubtractSmaller(a: MpInt, b: MpInt, c: MpInt, sa: bool, sb: bool)
    requires a.Proper() && b.Proper() && c.used <= |c.dp| && sa != sb
    modifies c
    ensures c.Valid()
    ensures Difference(old(a.used), old(a.Mag()), sa, old(b.used), old(b.Mag()), sb, c.Mag(), c.neg)
    ensures old(a.Clamped() && (b.Clamped() || b.used < a.used)) ==>
              c.Value() == (if sa then -(old(a.Mag()) as int) else old(a.Mag()))
                + if sb then -(old(b.Mag()) as int) else old(b.Mag())
    ensures c.used <= old(if a.used > b.used then a.used else b.used)
    ensures |c.dp| >= |old(c.dp)|
    ensures old(c.Clean()) ==> c.Clean()
    ensures LowKept(c, old(c.used), old(c.dp))
  {
    var r := CmpMag(a, b);
    if a.Clamped() {
      MoreDigits(a, b);
    }
    if r == -1 {
      c.neg := sb;
      SSub(b, a, c);
    } else {
      c.neg := sa;
      SSub(a, b, c);
    }
    MagBounds(c);
  }

  /** mp_sub; c may be a or b. */
  method Sub(a: MpInt, b: MpInt, c: MpInt)
    requires a.Proper() && b.Proper() && c.used <= |c.dp|
    modifies c
    ensures c.Valid()
    ensures old(a.neg) != old(b.neg) ==> c.Value() == old(a.Value()) - old(b.Value())
    ensures old(a.Clamped() && (b.Clamped() || b.used < a.used)) ==> c.Value() == old(a.Value()) - old(b.Value())
    ensures c.used <= old(if a.used > b.used then a.used else b.used) + 1
    ensures |c.dp| >= |old(c.dp)|
    ensures old(c.Clean()) ==> c.Clean()
    ensures LowKept(c, old(c.used), old(c.dp))
  {
    if a.neg != b.neg {
      c.neg := a.neg;
      SAdd(a, b, c);
    } else {
      SubtractSmaller(a, b, c, a.neg, !a.neg);
    }
  }
}
