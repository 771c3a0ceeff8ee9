/** mp_add_d and mp_sub_d: adding and subtracting one digit. */
module DigitAddition {
  import opened Radix
  import opened MpInts
  import opened AddSub
  import SingleDigit

  /** The digit string b, 0, 0, ... */
  ghost function OneDigit(b: nat, n: nat): (s: seq<nat>)
    requires n > 0
    ensures |s| == n && s[0] == b && forall k :: 0 < k < n ==> s[k] == 0
  {
    [b] + seq(n - 1, _ => 0)
  }

  lemma OneDigitVal(b: nat, n: nat)
    requires n > 0
    ensures Val(OneDigit(b, n), 0, n) == b
  {
    ValZeros(OneDigit(b, n), 1, n);
  }

  /** "handle rest of the digits" of mp_add_d: the carry runs up through a's digits. */
  method CarryLoop(a: MpInt, c: MpInt, n: nat, b: nat, d0: nat, ghost A: seq<nat>) returns (mu: nat)
    requires 0 < n == |A| && n < |c.dp| && Digits(A, n) && b < BASE && d0 == A[0]
    requires n <= |a.dp| && forall k :: 0 <= k < n ==> a.dp[k] == A[k]
    modifies c`dp
    ensures mu <= 1 && |c.dp| == |old(c.dp)| && Added(c.dp, A, OneDigit(b, n), n, mu)
    ensures forall k :: n <= k < |c.dp| ==> c.dp[k] == old(c.dp)[k]
  {
    ghost var B := OneDigit(b, n);
    ghost var before := c.dp;
    c.dp := c.dp[0 := d0 + b];
    mu := c.dp[0] / BASE;
    c.dp := c.dp[0 := c.dp[0] % BASE];
    AddColumn(before, c.dp, A, B, 0, 0, mu);
    var ix: nat := 1;
    while ix < n
      invariant 1 <= ix <= n && mu <= 1 && |c.dp| == |old(c.dp)|
      invariant n <= |a.dp| && forall k :: ix <= k < n ==> a.dp[k] == A[k]
      invariant forall k :: n <= k < |c.dp| ==> c.dp[k] == old(c.dp)[k]
      invariant Added(c.dp, A, B, ix, mu)
    {
      before := c.dp;
      ghost var u0 := mu;
      c.dp := c.dp[ix := a.dp[ix] + mu];
      mu := c.dp[ix] / BASE;
      c.dp := c.dp[ix := c.dp[ix] % BASE];
      AddColumn(before, c.dp, A, B, ix, u0, mu);
      ix := ix + 1;
    }
  }

  /** "handle rest of the digits" of mp_sub_d: the borrow runs up through a's digits. */
  method BorrowLoop(a: MpInt, c: MpInt, n: nat, b: nat, ghost A: seq<nat>) returns (mu: nat)
    requires 0 < n == |A| && n < |c.dp| && Digits(A, n) && b < BASE
    requires n <= |a.dp| && forall k :: 0 <= k < n ==> a.dp[k] == A[k]
    modifies c`dp
    ensures mu <= 1 && |c.dp| == |old(c.dp)| && Subtracted(c.dp, A, OneDigit(b, n), n, mu)
    ensures forall k :: n <= k < |c.dp| ==> c.dp[k] == old(c.dp)[k]
  {
    ghost var B := OneDigit(b, n);
    ghost var before := c.dp;
    BorrowWord(A[0], b, 0);
    c.dp := c.dp[0 := (a.dp[0] - b) % DIGIT_WRAP];
    mu := c.dp[0] / 0x8000_0000;
    c.dp := c.dp[0 := c.dp[0] % BASE];
    SubColumn(before, c.dp, A, B, 0, 0, mu);
    var ix: nat := 1;
    while ix < n
      invariant 1 <= ix <= n && mu <= 1 && |c.dp| == |old(c.dp)|
      invariant n <= |a.dp| && forall k :: ix <= k < n ==> a.dp[k] == A[k]
      invariant forall k :: n <= k < |c.dp| ==> c.dp[k] == old(c.dp)[k]
      invariant Subtracted(c.dp, A, B, ix, mu)
    {
      before := c.dp;
      ghost var u0 := mu;
      BorrowWord(A[ix], 0, u0);
      c.dp := c.dp[ix := (a.dp[ix] - mu) % DIGIT_WRAP];
      mu := c.dp[ix] / 0x8000_0000;
      c.dp := c.dp[ix := c.dp[ix] % BASE];
      SubColumn(before, c.dp, A, B, ix, u0, mu);
      ix := ix + 1;
    }
  }

  /** The branch of mp_add_d for numbers that are not negative. */
  method AddMagnitude(a: MpInt, b: nat, c: MpInt)
    requires a.Valid() && |a.dp| > 0 && c.used <= |c.dp| && b < BASE
    modifies c
    ensures c.Valid() && !c.neg && |c.dp| > 0
    ensures c.Mag() == if old(a.used) > 0 then old(a.Mag()) + b else (old(a.dp[0]) + b) % BASE
    ensures old(c.Clean() && ZeroReads(a)) ==> c.Clean()
  {
    var n := a.used;
    var olduse := c.used;
    if n == 0 {
      AddToZero(a.dp[0], c, b, olduse);
      return;
    }
    ghost var A := a.dp[..n];
    ValSame(A, a.dp, 0, n);
    OneDigitVal(b, n);
    var d0 := a.dp[0];
    c.Grow(n + 1);
    c.neg := false;
    var mu := CarryLoop(a, c, n, b, d0, A);
    c.used := n + 1;
    StoreCarry(c, n, mu, olduse);
  }

  /**
   mp_add_d of a zero with no digit in use: the lowest word, which may hold anything, is added all the same, and the
   carry lands in a digit that is cut off.
   */
  method AddToZero(low: nat, c: MpInt, b: nat, olduse: nat)
    requires c.used <= |c.dp| && b < BASE && olduse == c.used
    modifies c
    ensures c.Valid() && !c.neg && c.Mag() == (low + b) % BASE
    ensures |c.dp| > 0 && (low == 0 && old(c.Clean()) ==> c.Clean())
  {
    c.Grow(1);
    c.neg := false;
    var sum := (low + b) % DIGIT_WRAP;
    c.dp := c.dp[0 := sum % BASE];
    if |c.dp| > 1 {
      c.dp := c.dp[1 := sum / BASE];
    }
    ClearAbove(c, olduse);
    SingleDigit.ModWrap(low + b);
  }

  /** "now zero to oldused", from the third digit on, with one digit in use. */
  method ClearAbove(c: MpInt, olduse: nat)
    requires |c.dp| > 0 && olduse <= |c.dp| && c.dp[0] < BASE && !c.neg
    modifies c
    ensures c.Valid() && !c.neg && c.Mag() == old(c.dp[0]) && |c.dp| == |old(c.dp)|
    ensures (forall k :: 1 <= k < |c.dp| && !(2 <= k < olduse) ==> old(c.dp)[k] == 0) ==> c.Clean()
  {
    c.used := 1;
    assert Val(c.dp, 0, 1) == c.dp[0];
    c.Settle(2, olduse);
  }

  /** The branch of mp_sub_d for numbers larger than the digit. */
  method SubMagnitude(a: MpInt, b: nat, c: MpInt)
    requires a.Valid() && a.used > 0 && a.Mag() > b && c.used <= |c.dp| && b < BASE
    modifies c
    ensures c.Valid() && !c.neg && c.Mag() == old(a.Mag()) - b
  {
    var n := a.used;
    var olduse := c.used;
    ghost var A := a.dp[..n];
    ValSame(A, a.dp, 0, n);
    OneDigitVal(b, n);
    c.Grow(n + 1);
    c.neg := false;
    ghost var mu := BorrowLoop(a, c, n, b, A);
    LostBorrow(c.dp, A, OneDigit(b, n), n, mu);
    c.used := n;
    c.Settle(c.used, olduse);
  }

  /** "simply fix the single digit" of mp_sub_d: the result is b - a, negated. */
  method SingleDifference(a: MpInt, b: nat, c: MpInt)
    requires a.Valid() && a.used <= 1 && a.Mag() <= b && c.used <= |c.dp| && b < BASE
    modifies c
    ensures c.Valid() && c.Value() == old(a.Mag()) - b
  {
    assert a.used == 1 ==> Val(a.dp, 0, 1) == a.dp[0];
    var olduse := c.used;
    var d := if a.used == 1 then b - a.dp[0] else b;
    c.Grow(1);
    c.dp := c.dp[0 := d];
    c.neg, c.used := true, 1;
    assert Val(c.dp, 0, 1) == c.dp[0];
    c.Settle(c.used, olduse);
    MagBounds(c);
  }

  lemma OneDigitNumber(a: MpInt)
    requires a.Valid()
    ensures a.used == 1 ==> a.Mag() == a.dp[0]
    ensures a.used > 1 ==> a.Mag() >= BASE
  {
    MagBounds(a);
    if a.used > 1 {
      WMono(1, a.used - 1);
      assert W(1) == BASE * W(0);
    }
    if a.used == 1 {
      assert Val(a.dp, 0, 1) == a.dp[0];
    }
  }

  /** mp_sub_d without its detour for negative numbers. */
  method SubPositive(a: MpInt, b: nat, c: MpInt)
    requires a.Valid() && !a.neg && c.used <= |c.dp| && b < BASE
    modifies c
    ensures c.Valid() && c.Value() == old(a.Value()) - b
  {
    MagBounds(a);
    OneDigitNumber(a);
    if a.used == 0 || (a.used == 1 && a.dp[0] <= b) {
      SingleDifference(a, b, c);
    } else {
      SubMagnitude(a, b, c);
    }
  }

  /** "a->sign = c->sign = MP_NEG", and clamp. */
  method FixSigns(a: MpInt, c: MpInt)
    requires a.Valid() && c.Valid() && !c.neg && (a != c ==> a.used > 0)
    modifies a`neg, c`neg, c`used
    ensures c.Valid() && c.Value() == -old(c.Value())
    ensures a != c ==> a.Valid() && a.neg
  {
    a.neg := true;
    c.neg := true;
    c.Clamp();
    MagBounds(c);
  }

  /** The first branch of mp_add_d: a <= -b, so the result is -(|a| - b). */
  method AddNegative(a: MpInt, b: nat, c: MpInt)
    requires a.Valid() && a.neg && a.Mag() >= b && c.Valid() && b < BASE
    modifies a`neg, c
    ensures c.Valid() && c.Value() == old(a.Value()) + b
    ensures a != c ==> a.Valid() && a.neg
  {
    MagBounds(a);
    a.neg := false;
    SubPositive(a, b, c);
    MagBounds(c);
    FixSigns(a, c);
  }

  /** The result when a is negative and |a| < b. */
  method AddAcrossZero(a: MpInt, b: nat, c: MpInt)
    requires a.Valid() && a.neg && a.used == 1 && a.Mag() < b && c.Valid() && a != c && b < BASE
    modifies c
    ensures c.Valid() && c.Value() == a.Value() + b
  {
    assert Val(a.dp, 0, 1) == a.dp[0];
    var olduse := c.used;
    c.Grow(1);
    c.dp := c.dp[0 := b - a.dp[0]];
    c.neg, c.used := false, 1;
    assert Val(c.dp, 0, 1) == c.dp[0];
    c.Settle(c.used, olduse);
  }

  /**
   mp_add_d; c may be a.  The source sets c's sign before it looks at a's again, so in place it adds the digit to the
   magnitude when -b < a < 0; and to a zero it adds whatever the lowest word holds.
   */
  method AddD(a: MpInt, b: nat, c: MpInt)
    requires a.Valid() && |a.dp| > 0 && c.Valid() && b < BASE
    modifies a`neg, c
    ensures c.Valid()
    ensures old(a.Value()) != 0 && (a != c || !(0 < -old(a.Value()) < b)) ==> c.Value() == old(a.Value()) + b
    ensures a == c && 0 < -old(a.Value()) < b ==> c.Value() == b - old(a.Value())
    ensures old(a.Value()) == 0 ==> c.Value() == (old(a.dp[0]) + b) % BASE
    ensures a != c ==> a.Valid() && a.neg == old(a.neg)
    ensures old(!a.neg && c.Clean() && ZeroReads(a)) ==> c.Clean() && ZeroReads(c)
  {
    MagBounds(a);
    OneDigitNumber(a);
    if a.neg && (a.used > 1 || a.dp[0] >= b) {
      AddNegative(a, b, c);
      return;
    }
    c.neg := false;
    if !a.neg {
      AddMagnitude(a, b, c);
    } else {
      AddAcrossZero(a, b, c);
    }
  }

  /** mp_sub_d; c may be a. */
  method SubD(a: MpInt, b: nat, c: MpInt)
    requires a.Valid() && c.Valid() && b < BASE
    modifies a`neg, c
    ensures c.Valid() && c.Value() == old(a.Value()) - b
    ensures a != c ==> a.Valid() && a.neg == old(a.neg)
  {
    MagBounds(a);
    if a.neg {
      a.neg := false;
      AddMagnitude(a, b, c);
      MagBounds(c);
      FixSigns(a, c);
    } else {
      SubPositive(a, b, c);
    }
  }
}
