/**
 The mp_int record and the operations that only move digits.

 `dp` is the digit buffer; its length is the record's `alloc`, and growing it stands for mp_grow.
 Only the first `used` entries are significant.  What lies above them is unspecified unless
 `Clean()` says it is zero, because fast_s_mp_mul_digs leaves one stale word there.
 */
module MpInts {
  import opened Arith
  import opened Radix

  const MP_PREC: nat := 32   // default digits of precision

  /** The size that mp_grow rounds up to: a multiple of MP_PREC, more than MP_PREC digits above what is asked for. */
  function Roomy(size: nat): (r: nat)
    ensures r > size + MP_PREC && r % MP_PREC == 0
  {
    size + 2 * MP_PREC - size % MP_PREC
  }

  class MpInt {
    var neg: bool       // sign == MP_NEG
    var used: nat
    var dp: seq<nat>

    /** The significant digits exist and are proper; leading zeros are allowed. */
    ghost predicate Proper()
      reads this
    {
      used <= |dp| && Digits(dp, used)
    }

    /** What mp_clamp establishes: no leading zeros. */
    ghost predicate Clamped()
      reads this
    {
      Proper() && (used > 0 ==> dp[used - 1] != 0)
    }

    /** A clamped number in which zero carries the positive sign. */
    ghost predicate Valid()
      reads this
    {
      Clamped() && (used == 0 ==> !neg)
    }

    /** Every digit at or above `used` is zero. */
    ghost predicate Clean()
      reads this
    {
      forall k :: used <= k < |dp| ==> dp[k] == 0
    }

    /** The magnitude. */
    ghost function Mag(): nat
      requires used <= |dp|
      reads this
    {
      Val(dp, 0, used)
    }

    /** The signed value. */
    ghost function Value(): int
      requires used <= |dp|
      reads this
    {
      if neg then -(Mag() as int) else Mag()
    }

    constructor ()
      ensures Valid() && Clean() && used == 0 && Value() == 0 && |dp| == MP_PREC
    {
      neg, used, dp := false, 0, seq(MP_PREC, _ => 0);
    }

    /** mp_grow: at least MP_PREC more digits than asked for, if it has to grow; the new ones are zero. */
    method Grow(size: nat)
      modifies `dp
      ensures |dp| == if |old(dp)| < size then Roomy(size) else |old(dp)|
      ensures |dp| >= size && |old(dp)| <= |dp|
      ensures forall k :: 0 <= k < |dp| ==> dp[k] == if k < |old(dp)| then old(dp)[k] else 0
    {
      if |dp| < size {
        dp := dp + seq(Roomy(size) - |dp|, _ => 0);
      }
    }

    /** mp_zero */
    method Zero()
      modifies this
      ensures Valid() && Clean() && used == 0 && !neg && |dp| == |old(dp)|
    {
      neg, used := false, 0;
      dp := seq(|dp|, _ => 0);
    }

    /** mp_set */
    method Set(b: nat)
      modifies this
      ensures Valid() && Clean() && Value() == b % BASE
    {
      Zero();
      Grow(1);
      dp := dp[0 := b % BASE];
      used := if dp[0] != 0 then 1 else 0;
    }

    /** mp_clamp */
    method Clamp()
      requires Proper()
      modifies `used, `neg
      ensures Valid() && Mag() == old(Mag()) && used <= old(used)
      ensures neg == (old(neg) && used > 0)
      ensures forall k :: used <= k < old(used) ==> dp[k] == 0
    {
      while used > 0 && dp[used - 1] == 0
        invariant used <= old(used) && dp == old(dp) && neg == old(neg)
        invariant Mag() == old(Mag())
        invariant forall k :: used <= k < old(used) ==> dp[k] == 0
      {
        ValTop(dp, 0, used - 1);
        used := used - 1;
      }
      if used == 0 {
        neg := false;
      }
    }

    /**
     The common ending of the digit loops: zero what the previous, longer value left behind from
     position `start` on, then clamp.
     */
    method Settle(start: nat, olduse: nat)
      requires Proper() && olduse <= |dp| && used <= start
      modifies this
      ensures Valid() && Mag() == old(Mag()) && used <= old(used) && |dp| == |old(dp)|
      ensures neg == (old(neg) && used > 0)
      ensures forall k :: used <= k < |dp| ==>
                dp[k] == if k < old(used) || start <= k < olduse then 0 else old(dp)[k]
    {
      var i := start;
      while i < olduse
        invariant start <= i && used == old(used) && neg == old(neg) && |dp| == |old(dp)|
        invariant forall k :: 0 <= k < |dp| && !(start <= k < i) ==> dp[k] == old(dp)[k]
        invariant forall k :: start <= k < i && k < olduse ==> dp[k] == 0
        invariant i <= olduse || i == start
      {
        dp := dp[i := 0];
        i := i + 1;
      }
      ValSame(dp, old(dp), 0, used);
      Clamp();
    }
  }

  // ----- facts about clamped numbers

  lemma MagBounds(a: MpInt)
    requires a.Clamped()
    ensures a.Mag() < W(a.used)
    ensures a.used > 0 ==> a.Mag() >= W(a.used - 1)
    ensures a.used == 0 <==> a.Mag() == 0
  {
    ValBound(a.dp, 0, a.used);
    if a.used > 0 {
      ValAtLeast(a.dp, 0, a.used);
    }
  }

  /** The digit count is monotone in the magnitude. */
  lemma UsedMono(a: MpInt, b: MpInt)
    requires a.Clamped() && b.Clamped() && a.Mag() <= b.Mag()
    ensures a.used <= b.used
  {
    MagBounds(a);
    MagBounds(b);
    if a.used > b.used {
      WMono(b.used, a.used - 1);
    }
  }

  /** A number below W(n) has at most n digits, and conversely. */
  lemma UsedBelow(a: MpInt, n: nat)
    requires a.Clamped()
    ensures a.used <= n <==> a.Mag() < W(n)
  {
    MagBounds(a);
    if a.used <= n {
      WMono(a.used, n);
    } else {
      WMono(n, a.used - 1);
    }
  }

  // ----- copying and comparing

  /** The lowest word is zero when no digit is significant: what reads it without asking sees a zero. */
  ghost predicate ZeroReads(a: MpInt)
    reads a
  {
    a.used > 0 || (|a.dp| > 0 && a.dp[0] == 0)
  }

  /** A zero has zero as its lowest word, or what that word was in the zero that there was before. */
  ghost predicate LowKept(x: MpInt, used: nat, dp: seq<nat>)
    reads x
  {
    ZeroReads(x) || (used == 0 && (|dp| > 0 ==> |x.dp| > 0 && x.dp[0] == dp[0]))
  }

  /** A zero has zero or this word as its lowest word. */
  ghost predicate LowIs(x: MpInt, word: nat)
    reads x
  {
    ZeroReads(x) || (|x.dp| > 0 && x.dp[0] == word)
  }

  /** mp_copy */
  method Copy(a: MpInt, b: MpInt)
    requires a.used <= |a.dp| && b.used <= |b.dp|
    modifies b
    ensures b.used == old(a.used) && b.neg == old(a.neg) && b.used <= |b.dp|
    ensures forall k :: 0 <= k < old(a.used) ==> b.dp[k] == old(a.dp[k])
    ensures b.Mag() == old(a.Mag())
    ensures b != a && old(b.Clean()) ==> b.Clean()
    ensures |b.dp| >= |old(b.dp)|
    ensures old(a.Clamped()) ==> b.Clamped()
    ensures old(a.Valid()) ==> b.Valid()
    ensures a == b ==> b.dp == old(b.dp)
  {
    if a == b {
      return;
    }
    b.Grow(a.used);
    var n := 0;
    while n < a.used
      invariant n <= a.used <= |b.dp| && b.used == old(b.used) && |b.dp| >= |old(b.dp)|
      invariant forall k :: 0 <= k < n ==> b.dp[k] == a.dp[k]
      invariant forall k :: n <= k < |b.dp| ==> b.dp[k] == if k < |old(b.dp)| then old(b.dp)[k] else 0
    {
      b.dp := b.dp[n := a.dp[n]];
      n := n + 1;
    }
    while n < b.used
      invariant a.used <= n <= |b.dp| && b.used == old(b.used) && |b.dp| >= |old(b.dp)|
      invariant n <= b.used || n == a.used
      invariant forall k :: 0 <= k < a.used ==> b.dp[k] == a.dp[k]
      invariant forall k :: a.used <= k < n ==> b.dp[k] == 0
      invariant forall k :: n <= k < |b.dp| ==> b.dp[k] == if k < |old(b.dp)| then old(b.dp)[k] else 0
    {
      b.dp := b.dp[n := 0];
      n := n + 1;
    }
    b.used, b.neg := a.used, a.neg;
    ValSame(a.dp, b.dp, 0, a.used);
  }

  /** mp_exch with a number that is not used again: the destination takes the fields over. */
  method Move(a: MpInt, b: MpInt)
    modifies b
    ensures b.neg == a.neg && b.used == a.used && b.dp == old(a.dp)
  {
    b.neg, b.used, b.dp := a.neg, a.used, a.dp;
  }

  /**
   mp_cmp_mag.  The digit counts decide first, so on numbers that are not clamped the answer need
   not be the order of the magnitudes; the long division relies on knowing exactly that.
   */
  method CmpMag(a: MpInt, b: MpInt) returns (r: int)
    requires a.Proper() && b.Proper()
    ensures a.used > b.used ==> r == 1
    ensures a.used < b.used ==> r == -1
    ensures a.used == b.used ==> r == if a.Mag() < b.Mag() then -1 else if a.Mag() > b.Mag() then 1 else 0
    ensures a.Clamped() && b.Clamped() ==>
              r == if a.Mag() < b.Mag() then -1 else if a.Mag() > b.Mag() then 1 else 0
  {
    if a.Clamped() && b.Clamped() {
      MoreDigits(a, b);
      MoreDigits(b, a);
    }
    if a.used > b.used {
      return 1;
    }
    if a.used < b.used {
      return -1;
    }
    var n: nat := a.used;
    while n > 0
      invariant n <= a.used == b.used
      invariant a.Mag() - Val(a.dp, 0, n) == b.Mag() - Val(b.dp, 0, n)
    {
      n := n - 1;
      TopDigits(a.dp, b.dp, n);
      if a.dp[n] > b.dp[n] {
        return 1;
      }
      if a.dp[n] < b.dp[n] {
        return -1;
      }
    }
    return 0;
  }

  /** A number without leading zeros that has more digits is larger. */
  lemma MoreDigits(a: MpInt, b: MpInt)
    requires a.Clamped() && b.Proper()
    ensures a.used > b.used ==> a.Mag() > b.Mag()
  {
    if a.used > b.used {
      MagBounds(a);
      ValBound(b.dp, 0, b.used);
      WMono(b.used, a.used - 1);
    }
  }

  /** The top digits decide the order of two digit strings, unless they are equal. */
  lemma TopDigits(s: seq<nat>, t: seq<nat>, n: nat)
    requires n < |s| && n < |t| && Digits(s, n + 1) && Digits(t, n + 1)
    ensures s[n] > t[n] ==> Val(s, 0, n + 1) > Val(t, 0, n + 1)
    ensures s[n] < t[n] ==> Val(s, 0, n + 1) < Val(t, 0, n + 1)
    ensures s[n] == t[n] ==> Val(s, 0, n + 1) - Val(t, 0, n + 1) == Val(s, 0, n) - Val(t, 0, n)
  {
    ValTop(s, 0, n);
    ValTop(t, 0, n);
    ValBound(s, 0, n);
    ValBound(t, 0, n);
    if s[n] > t[n] {
      LeadingDigit(t[n], Val(t, 0, n), s[n], Val(s, 0, n), W(n));
    } else if s[n] < t[n] {
      LeadingDigit(s[n], Val(s, 0, n), t[n], Val(t, 0, n), W(n));
    }
  }

  /** mp_cmp */
  method Cmp(a: MpInt, b: MpInt) returns (r: int)
    requires a.Valid() && b.Valid()
    ensures r == if a.Value() < b.Value() then -1 else if a.Value() > b.Value() then 1 else 0
  {
    MagBounds(a);
    MagBounds(b);
    if a.neg != b.neg {
      return if a.neg then -1 else 1;
    }
    if a.neg {
      r := CmpMag(b, a);
    } else {
      r := CmpMag(a, b);
    }
  }

  // ----- digit shifts

  lemma ShiftedUp(s: seq<nat>, t: seq<nat>, b: nat, n: nat)
    requires b + n <= |t| && n <= |s| && Digits(s, n)
    requires forall k :: 0 <= k < b ==> t[k] == 0
    requires forall k :: b <= k < b + n ==> t[k] == s[k - b]
    ensures Digits(t, b + n) && Val(t, 0, b + n) == Val(s, 0, n) * W(b)
  {
    ValSplit(t, 0, b, b + n);
    ValZeros(t, 0, b);
    ValMoved(t, b, s, 0, n);
  }

  lemma ShiftedDown(s: seq<nat>, t: seq<nat>, b: nat, n: nat)
    requires b + n <= |s| && n <= |t| && Digits(s, b + n)
    requires forall k :: 0 <= k < n ==> t[k] == s[k + b]
    ensures Digits(t, n) && Val(t, 0, n) == Val(s, 0, b + n) / W(b)
  {
    forall k | 0 <= k < n ensures t[k] < BASE {
      assert t[k] == s[k + b];
    }
    ValSplit(s, 0, b, b + n);
    ValBound(s, 0, b);
    ValMoved(t, 0, s, b, n);
    QuotientOf(Val(s, 0, b + n), Val(s, 0, b), W(b), Val(t, 0, n));
  }

  /** mp_lshd */
  method Lshd(a: MpInt, b: nat)
    requires a.Clamped()
    modifies a
    ensures a.Proper()
    ensures a.used == old(a.used) + b && a.neg == old(a.neg) && |a.dp| >= |old(a.dp)|
    ensures a.Mag() == old(a.Mag()) * W(b)
    ensures old(a.used) > 0 ==> a.Clamped()
    ensures old(a.used) > 0 && old(a.Valid()) ==> a.Valid()
    ensures old(a.Clean()) ==> a.Clean()
  {
    if b == 0 {
      return;
    }
    var n := a.used;
    a.Grow(n + b);
    ghost var s := a.dp;
    ValSame(s, old(a.dp), 0, n);
    a.used := n + b;
    ShiftUp(a, b, n);
    ShiftedUp(s, a.dp, b, n);
  }

  /** The copy loop and the zeroing loop of mp_lshd. */
  method ShiftUp(a: MpInt, b: nat, n: nat)
    requires b + n <= |a.dp|
    modifies a`dp
    ensures |a.dp| == |old(a.dp)|
    ensures forall k :: 0 <= k < b ==> a.dp[k] == 0
    ensures forall k :: b <= k < b + n ==> a.dp[k] == old(a.dp)[k - b]
    ensures forall k :: b + n <= k < |a.dp| ==> a.dp[k] == old(a.dp)[k]
  {
    ghost var s := a.dp;
    var x := b + n;
    while x > b
      invariant b <= x <= b + n && |a.dp| == |s|
      invariant forall k :: x <= k < b + n ==> a.dp[k] == s[k - b]
      invariant forall k :: 0 <= k < |s| && !(x <= k < b + n) ==> a.dp[k] == s[k]
    {
      x := x - 1;
      a.dp := a.dp[x := a.dp[x - b]];
    }
    ZeroLow(a, b);
  }

  /** "zero the lower digits" */
  method ZeroLow(a: MpInt, b: nat)
    requires b <= |a.dp|
    modifies a`dp
    ensures |a.dp| == |old(a.dp)|
    ensures forall k :: 0 <= k < |a.dp| ==> a.dp[k] == if k < b then 0 else old(a.dp)[k]
  {
    var x := 0;
    while x < b
      invariant x <= b && |a.dp| == |old(a.dp)|
      invariant forall k :: 0 <= k < |a.dp| ==> a.dp[k] == if k < x then 0 else old(a.dp)[k]
    {
      a.dp := a.dp[x := 0];
      x := x + 1;
    }
  }

  /** mp_rshd */
  method Rshd(a: MpInt, b: nat)
    requires a.Valid()
    modifies a
    ensures a.Valid() && a.Mag() == old(a.Mag()) / W(b)
    ensures a.neg == (old(a.neg) && a.used > 0)
    ensures a.used == if old(a.used) <= b then 0 else old(a.used) - b
    ensures old(a.Clean()) ==> a.Clean()
    ensures |a.dp| == |old(a.dp)|
  {
    MagBounds(a);
    if b == 0 {
      return;
    }
    if a.used <= b {
      WMono(a.used, b);
      DivIs(a.Mag(), W(b), 0);
      a.Zero();
      ValZeros(a.dp, 0, a.used);
      return;
    }
    ghost var s := a.dp;
    ShiftDown(a, b, a.used);
    ShiftedDown(s, a.dp, b, a.used - b);
    a.used := a.used - b;
  }

  /** The copy loop and the zeroing loop of mp_rshd. */
  method ShiftDown(a: MpInt, b: nat, used: nat)
    requires b <= used <= |a.dp|
    modifies a`dp
    ensures |a.dp| == |old(a.dp)|
    ensures forall k :: 0 <= k < used - b ==> a.dp[k] == old(a.dp)[k + b]
    ensures forall k :: used - b <= k < used ==> a.dp[k] == 0
    ensures forall k :: used <= k < |a.dp| ==> a.dp[k] == old(a.dp)[k]
  {
    ghost var s := a.dp;
    var x := 0;
    while x < used - b
      invariant x <= used - b && |a.dp| == |s|
      invariant forall k :: 0 <= k < x ==> a.dp[k] == s[k + b]
      invariant forall k :: x <= k < |s| ==> a.dp[k] == s[k]
    {
      a.dp := a.dp[x := a.dp[x + b]];
      x := x + 1;
    }
    while x < used
      invariant used - b <= x <= used && |a.dp| == |s|
      invariant forall k :: 0 <= k < used - b ==> a.dp[k] == s[k + b]
      invariant forall k :: used - b <= k < x ==> a.dp[k] == 0
      invariant forall k :: used <= k < |s| ==> a.dp[k] == s[k]
    {
      a.dp := a.dp[x := 0];
      x := x + 1;
    }
  }
}
