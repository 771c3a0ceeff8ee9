/**
 Positional arithmetic in the library's radix.

 The default build keeps DIGIT_BIT = 28 bits in each 32-bit mp_digit and accumulates in a 64-bit
 mp_word (tommath.h:87-108).  `Val(s, lo, hi)` is the number the digits s[lo..hi) stand for, least
 significant first.  It is also used for columns that are not yet reduced below BASE.
 */
module Radix {
  import Arith

  const DIGIT_BIT: nat := 28
  const BASE: nat := 0x1000_0000          // 2^DIGIT_BIT, so MP_MASK is BASE - 1
  const DIGIT_WRAP: nat := 0x1_0000_0000  // an mp_digit is a 32-bit unsigned machine word
  const WORD_WRAP: nat := 0x1_0000_0000_0000_0000  // an mp_word is a 64-bit unsigned machine word

  /** BASE to the power n, the weight of digit n. */
  function W(n: nat): (w: nat)
    ensures w > 0
  {
    if n == 0 then 1 else BASE * W(n - 1)
  }

  function Pow2(n: nat): (p: nat)
    ensures p > 0
  {
    if n == 0 then 1 else 2 * Pow2(n - 1)
  }

  function Val(s: seq<nat>, lo: nat, hi: nat): nat
    requires hi <= |s|
    decreases hi - lo
  {
    if lo >= hi then 0 else s[lo] + BASE * Val(s, lo + 1, hi)
  }

  /** The first n entries are proper digits. */
  ghost predicate Digits(s: seq<nat>, n: nat)
    requires n <= |s|
  {
    forall k :: 0 <= k < n ==> s[k] < BASE
  }

  // ----- weights

  lemma {:induction false} WAdd(m: nat, n: nat)
    ensures W(m + n) == W(m) * W(n)
  {
    if m > 0 {
      WAdd(m - 1, n);
      assert W(m + n) == BASE * W(m - 1 + n);
      assert BASE * (W(m - 1) * W(n)) == (BASE * W(m - 1)) * W(n);
    }
  }

  lemma {:induction false} WMono(m: nat, n: nat)
    requires m <= n
    ensures W(m) <= W(n)
    decreases n
  {
    if m < n {
      WMono(m, n - 1);
    }
  }

  lemma {:induction false} Pow2Add(m: nat, n: nat)
    ensures Pow2(m + n) == Pow2(m) * Pow2(n)
  {
    if m > 0 {
      Pow2Add(m - 1, n);
      Arith.TwiceFactor(Pow2(m - 1), Pow2(n));
    }
  }

  lemma {:induction false} Pow2Mono(m: nat, n: nat)
    requires m <= n
    ensures Pow2(m) <= Pow2(n)
    decreases n
  {
    if m < n {
      Pow2Mono(m, n - 1);
    }
  }

  lemma Pow2Digit()
    ensures Pow2(DIGIT_BIT) == BASE
  {
    assert Pow2(7) == 128;
    Pow2Add(7, 7);
    Pow2Add(14, 14);
  }

  /** A digit shift is a shift by DIGIT_BIT bits. */
  lemma {:induction false} WIsPow2(n: nat)
    ensures W(n) == Pow2(DIGIT_BIT * n)
  {
    if n > 0 {
      WIsPow2(n - 1);
      Pow2Digit();
      Pow2Add(DIGIT_BIT, DIGIT_BIT * (n - 1));
    }
  }

  // ----- digit strings

  lemma {:induction false} ValTop(s: seq<nat>, lo: nat, hi: nat)
    requires lo <= hi < |s|
    ensures Val(s, lo, hi + 1) == Val(s, lo, hi) + s[hi] * W(hi - lo)
    decreases hi - lo
  {
    if lo < hi {
      ValTop(s, lo + 1, hi);
      assert s[hi] * W(hi - lo) == BASE * (s[hi] * W(hi - lo - 1));
    }
  }

  lemma {:induction false} ValSplit(s: seq<nat>, lo: nat, mid: nat, hi: nat)
    requires lo <= mid <= hi <= |s|
    ensures Val(s, lo, hi) == Val(s, lo, mid) + W(mid - lo) * Val(s, mid, hi)
    decreases mid - lo
  {
    if lo < mid {
      ValSplit(s, lo + 1, mid, hi);
      assert BASE * (W(mid - lo - 1) * Val(s, mid, hi)) == W(mid - lo) * Val(s, mid, hi);
    }
  }

  lemma {:induction false} ValSame(s: seq<nat>, t: seq<nat>, lo: nat, hi: nat)
    requires hi <= |s| && hi <= |t|
    requires forall k :: lo <= k < hi ==> s[k] == t[k]
    ensures Val(s, lo, hi) == Val(t, lo, hi)
    decreases hi - lo
  {
    if lo < hi {
      ValSame(s, t, lo + 1, hi);
    }
  }

  /** The same digits at another offset. */
  lemma {:induction false} ValMoved(s: seq<nat>, lo: nat, t: seq<nat>, lo': nat, n: nat)
    requires lo + n <= |s| && lo' + n <= |t|
    requires forall k :: lo <= k < lo + n ==> s[k] == t[k - lo + lo']
    ensures Val(s, lo, lo + n) == Val(t, lo', lo' + n)
    decreases n
  {
    if n > 0 {
      ValMoved(s, lo + 1, t, lo' + 1, n - 1);
    }
  }

  lemma {:induction false} ValSet(s: seq<nat>, i: nat, v: nat, lo: nat, hi: nat)
    requires lo <= i < hi <= |s|
    ensures Val(s[i := v], lo, hi) == Val(s, lo, hi) + (v - s[i]) * W(i - lo)
    decreases i - lo
  {
    if lo == i {
      ValSame(s, s[i := v], lo + 1, hi);
    } else {
      ValSet(s, i, v, lo + 1, hi);
      assert BASE * ((v - s[i]) * W(i - lo - 1)) == (v - s[i]) * W(i - lo);
    }
  }

  lemma {:induction false} ValZeros(s: seq<nat>, lo: nat, hi: nat)
    requires hi <= |s|
    requires forall k :: lo <= k < hi ==> s[k] == 0
    ensures Val(s, lo, hi) == 0
    decreases hi - lo
  {
    if lo < hi {
      ValZeros(s, lo + 1, hi);
    }
  }

  lemma {:induction false} ValBound(s: seq<nat>, lo: nat, hi: nat)
    requires lo <= hi <= |s|
    requires forall k :: lo <= k < hi ==> s[k] < BASE
    ensures Val(s, lo, hi) < W(hi - lo)
    decreases hi - lo
  {
    if lo < hi {
      ValBound(s, lo + 1, hi);
    }
  }

  lemma {:induction false} ValAtLeast(s: seq<nat>, lo: nat, hi: nat)
    requires lo < hi <= |s|
    requires s[hi - 1] != 0
    ensures Val(s, lo, hi) >= W(hi - 1 - lo)
  {
    ValTop(s, lo, hi - 1);
    assert s[hi - 1] * W(hi - 1 - lo) >= 1 * W(hi - 1 - lo);
  }
}
