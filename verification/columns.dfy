/**
 Products by columns and by rows.

 The comba routines sum all digit products of equal weight (a column) before they pass a carry on;
 the baseline routines add one digit times the other operand (a row) at a time.  Both may stop early
 or start late.  Here are the exact values of those partial products, and how they relate to the
 full product.
 */
module Columns {
  import opened Arith
  import opened Radix

  /** Digit j of the n-digit string s, zero outside it. */
  function At(s: seq<nat>, n: nat, j: int): nat
    requires n <= |s|
  {
    if 0 <= j < n then s[j] else 0
  }

  /** The products a[i] * b[k - i] for lo <= i < hi. */
  function ColSum(a: seq<nat>, b: seq<nat>, nb: nat, k: nat, lo: nat, hi: nat): nat
    requires hi <= |a| && nb <= |b|
    decreases hi
  {
    if lo >= hi then 0
    else ColSum(a, b, nb, k, lo, hi - 1) + a[hi - 1] * At(b, nb, k - (hi - 1))
  }

  /** Column k of the product of the na-digit a and the nb-digit b. */
  function Col(a: seq<nat>, na: nat, b: seq<nat>, nb: nat, k: nat): nat
    requires na <= |a| && nb <= |b|
  {
    ColSum(a, b, nb, k, 0, na)
  }

  /** Columns from..to-1, weighted so that column `from` has weight one. */
  function Cols(a: seq<nat>, na: nat, b: seq<nat>, nb: nat, from: nat, end: nat): nat
    requires na <= |a| && nb <= |b|
    decreases end
  {
    if from >= end then 0
    else Cols(a, na, b, nb, from, end - 1) + Col(a, na, b, nb, end - 1) * W(end - 1 - from)
  }

  function Clip(x: int, n: nat): nat {
    if x < 0 then 0 else if x > n then n else x
  }

  /** Rows 0..m-1 of the product, each cut off at weight n. */
  function Rows(a: seq<nat>, b: seq<nat>, nb: nat, m: nat, n: nat): nat
    requires m <= |a| && nb <= |b|
  {
    if m == 0 then 0
    else Rows(a, b, nb, m - 1, n) + a[m - 1] * (W(m - 1) * Val(b, 0, Clip(n - (m - 1), nb)))
  }

  // ----- rows and columns are the same products

  lemma WeightedTerm(a: nat, wi: nat, v: nat, d: nat, wd: nat, w: nat)
    requires w == wi * wd
    ensures a * (wi * (v + d * wd)) == a * (wi * v) + a * d * w
  {
    assert wi * (v + d * wd) == wi * v + d * (wi * wd) by {
      assert wi * (d * wd) == d * (wi * wd);
    }
    assert a * (wi * v + d * w) == a * (wi * v) + a * (d * w);
  }

  lemma RowTermInside(x: nat, b: seq<nat>, i: nat, d: nat)
    requires d < |b|
    ensures x * (W(i) * Val(b, 0, d + 1)) == x * (W(i) * Val(b, 0, d)) + x * b[d] * W(i + d)
  {
    ValTop(b, 0, d);
    WAdd(i, d);
    WeightedTerm(x, W(i), Val(b, 0, d), b[d], W(d), W(i + d));
  }

  lemma RowTerm(x: nat, b: seq<nat>, nb: nat, i: nat, n: nat)
    requires nb <= |b|
    ensures x * (W(i) * Val(b, 0, Clip(n + 1 - i, nb))) ==
            x * (W(i) * Val(b, 0, Clip(n - i, nb))) + x * At(b, nb, n - i) * W(n)
  {
    if 0 <= n - i < nb {
      RowTermInside(x, b, i, n - i);
    }
  }

  lemma {:induction false} RowsStep(a: seq<nat>, b: seq<nat>, nb: nat, m: nat, n: nat)
    requires m <= |a| && nb <= |b|
    ensures Rows(a, b, nb, m, n + 1) == Rows(a, b, nb, m, n) + ColSum(a, b, nb, n, 0, m) * W(n)
  {
    if m > 0 {
      RowsStep(a, b, nb, m - 1, n);
      RowTerm(a[m - 1], b, nb, m - 1, n);
      Distribute(ColSum(a, b, nb, n, 0, m - 1), a[m - 1] * At(b, nb, n - (m - 1)), W(n));
    }
  }

  lemma {:induction false} RowsEmpty(a: seq<nat>, b: seq<nat>, nb: nat, m: nat)
    requires m <= |a| && nb <= |b|
    ensures Rows(a, b, nb, m, 0) == 0
  {
    if m > 0 {
      RowsEmpty(a, b, nb, m - 1);
      assert Val(b, 0, Clip(0 - (m - 1), nb)) == 0;
    }
  }

  /** The columns below n add up to the rows cut off at n. */
  lemma {:induction false} ColsAreRows(a: seq<nat>, na: nat, b: seq<nat>, nb: nat, n: nat)
    requires na <= |a| && nb <= |b|
    ensures Cols(a, na, b, nb, 0, n) == Rows(a, b, nb, na, n)
  {
    if n == 0 {
      RowsEmpty(a, b, nb, na);
    } else {
      ColsAreRows(a, na, b, nb, n - 1);
      RowsStep(a, b, nb, na, n - 1);
    }
  }

  lemma ProductTerm(v: nat, x: nat, w: nat, y: nat)
    ensures (v + x * w) * y == v * y + x * (w * y)
  {
    assert x * (w * y) == (x * w) * y;
  }

  /** Uncut rows are the product. */
  lemma {:induction false} RowsFull(a: seq<nat>, b: seq<nat>, nb: nat, m: nat, n: nat)
    requires m <= |a| && nb <= |b| && n + 1 >= m + nb
    ensures Rows(a, b, nb, m, n) == Val(a, 0, m) * Val(b, 0, nb)
  {
    if m > 0 {
      RowsFull(a, b, nb, m - 1, n);
      ProductGrows(a, m - 1, Val(b, 0, nb));
    }
  }

  /** All columns together are the product. */
  lemma ColsFull(a: seq<nat>, na: nat, b: seq<nat>, nb: nat, n: nat)
    requires na <= |a| && nb <= |b| && n + 1 >= na + nb
    ensures Cols(a, na, b, nb, 0, n) == Val(a, 0, na) * Val(b, 0, nb)
  {
    ColsAreRows(a, na, b, nb, n);
    RowsFull(a, b, nb, na, n);
  }

  // ----- leaving columns out

  lemma {:induction false} ColsSplit(a: seq<nat>, na: nat, b: seq<nat>, nb: nat, mid: nat, end: nat)
    requires na <= |a| && nb <= |b| && mid <= end
    ensures Cols(a, na, b, nb, 0, end) == Cols(a, na, b, nb, 0, mid) + W(mid) * Cols(a, na, b, nb, mid, end)
    decreases end
  {
    if mid < end {
      ColsSplit(a, na, b, nb, mid, end - 1);
      var c, rest := Col(a, na, b, nb, end - 1), Cols(a, na, b, nb, mid, end - 1);
      WAdd(mid, end - 1 - mid);
      Factor(W(mid), rest, c, W(end - 1 - mid));
    }
  }

  /** What the columns below n leave of the product is a multiple of W(n). */
  lemma LowColumns(a: seq<nat>, na: nat, b: seq<nat>, nb: nat, n: nat) returns (h: nat)
    requires na <= |a| && nb <= |b|
    ensures Val(a, 0, na) * Val(b, 0, nb) == Cols(a, na, b, nb, 0, n) + W(n) * h
  {
    var end := if n < na + nb then na + nb else n;
    ColsSplit(a, na, b, nb, n, end);
    ColsFull(a, na, b, nb, end);
    h := Cols(a, na, b, nb, n, end);
  }

  /** Rows 0..m-1 of the product, each with only its part at or above weight n, divided by W(n). */
  function HighRows(a: seq<nat>, b: seq<nat>, nb: nat, m: nat, n: nat): nat
    requires m <= |a| && nb <= |b|
  {
    if m == 0 then 0
    else HighRows(a, b, nb, m - 1, n) + a[m - 1] * Val(b, Clip(n - (m - 1), nb), nb)
  }

  lemma SplitTerm(x: nat, wi: nat, lo: nat, wc: nat, hi: nat, w: nat)
    requires hi == 0 || wi * wc == w
    ensures x * (wi * (lo + wc * hi)) == x * (wi * lo) + w * (x * hi)
  {
    assert wi * (lo + wc * hi) == wi * lo + (wi * wc) * hi;
    assert x * (w * hi) == w * (x * hi);
  }

  lemma SplitRow(x: nat, b: seq<nat>, nb: nat, i: nat, n: nat)
    requires nb <= |b| && i <= n
    ensures x * (W(i) * Val(b, 0, nb)) ==
            x * (W(i) * Val(b, 0, Clip(n - i, nb))) + W(n) * (x * Val(b, Clip(n - i, nb), nb))
  {
    var c := Clip(n - i, nb);
    ValSplit(b, 0, c, nb);
    if c < nb {
      WAdd(i, c);
    }
    SplitTerm(x, W(i), Val(b, 0, c), W(c), Val(b, c, nb), W(n));
  }

  lemma AddRow(ab: nat, row: nat, r: nat, r': nat, w: nat, h: nat, y: nat, h': nat)
    requires ab == r + w * h && row == r' - r + w * y && h' == h + y
    ensures ab + row == r' + w * h'
  {
    Distribute(h, y, w);
  }

  lemma ProductGrows(a: seq<nat>, i: nat, y: nat)
    requires i < |a|
    ensures Val(a, 0, i + 1) * y == Val(a, 0, i) * y + a[i] * (W(i) * y)
  {
    ValTop(a, 0, i);
    ProductTerm(Val(a, 0, i), a[i], W(i), y);
  }

  /** Cutting every row at weight n splits the product in two. */
  lemma {:induction false} RowsSplit(a: seq<nat>, b: seq<nat>, nb: nat, m: nat, n: nat)
    requires m <= |a| && nb <= |b| && m <= n + 1
    ensures Val(a, 0, m) * Val(b, 0, nb) == Rows(a, b, nb, m, n) + W(n) * HighRows(a, b, nb, m, n)
  {
    if m > 0 {
      var i := m - 1;
      RowsSplit(a, b, nb, i, n);
      ProductGrows(a, i, Val(b, 0, nb));
      SplitRow(a[i], b, nb, i, n);
      AddRow(Val(a, 0, i) * Val(b, 0, nb), a[i] * (W(i) * Val(b, 0, nb)), Rows(a, b, nb, i, n), Rows(a, b, nb, m, n),
             W(n), HighRows(a, b, nb, i, n), a[i] * Val(b, Clip(n - i, nb), nb), HighRows(a, b, nb, m, n));
    }
  }

  /** The high rows are the high columns. */
  lemma HighRowsAreCols(a: seq<nat>, na: nat, b: seq<nat>, nb: nat, n: nat, end: nat)
    requires na <= |a| && nb <= |b| && na <= n + 1 && n <= end && end + 1 >= na + nb
    ensures HighRows(a, b, nb, na, n) == Cols(a, na, b, nb, n, end)
  {
    RowsSplit(a, b, nb, na, n);
    ColsSplit(a, na, b, nb, n, end);
    ColsFull(a, na, b, nb, end);
    ColsAreRows(a, na, b, nb, n);
    MulCancel(W(n), HighRows(a, b, nb, na, n), Cols(a, na, b, nb, n, end));
  }

  const DIGIT_SQUARE: nat := 0xFF_FFFF_E000_0001   // (BASE - 1) squared

  lemma {:induction false} ColSumBound(a: seq<nat>, b: seq<nat>, nb: nat, k: nat, lo: nat, hi: nat)
    requires lo <= hi <= |a| && nb <= |b| && Digits(a, hi) && Digits(b, nb)
    ensures ColSum(a, b, nb, k, lo, hi) <= (hi - lo) * DIGIT_SQUARE
    decreases hi
  {
    if lo < hi {
      ColSumBound(a, b, nb, k, lo, hi - 1);
      DigitProduct(a[hi - 1], At(b, nb, k - (hi - 1)));
    }
  }

  lemma DigitProduct(x: nat, y: nat)
    requires x < BASE && y < BASE
    ensures 0 <= x * y <= DIGIT_SQUARE
  {
    MulMono(0, x, y);
    MulMono(x, BASE - 1, y);
    MulMono(y, BASE - 1, BASE - 1);
  }

  /** Only the digits with k - nb < i <= k meet a digit of b in column k. */
  lemma {:induction false} ColTrim(a: seq<nat>, b: seq<nat>, nb: nat, k: nat, lo: nat, hi: nat, lo': nat, hi': nat)
    requires hi <= |a| && nb <= |b| && lo <= lo' <= hi' <= hi
    requires lo == lo' || k - (lo' - 1) >= nb
    requires hi == hi' || k < hi'
    ensures ColSum(a, b, nb, k, lo, hi) == ColSum(a, b, nb, k, lo', hi')
    decreases hi
  {
    if hi' < hi {
      ColTrim(a, b, nb, k, lo, hi - 1, lo', hi');
    } else if lo' < hi {
      ColTrim(a, b, nb, k, lo, hi - 1, lo', hi - 1);
    } else if lo < hi {
      ColTrim(a, b, nb, k, lo, hi - 1, hi - 1, hi - 1);
    }
  }

  /** Column k has at most k + 1 products. */
  lemma ColBound(a: seq<nat>, na: nat, b: seq<nat>, nb: nat, k: nat)
    requires na <= |a| && nb <= |b| && Digits(a, na) && Digits(b, nb)
    ensures Col(a, na, b, nb, k) <= (k + 1) * DIGIT_SQUARE
  {
    var hi := if na < k + 1 then na else k + 1;
    ColTrim(a, b, nb, k, 0, na, 0, hi);
    ColSumBound(a, b, nb, k, 0, hi);
  }

  /** The columns below n together stay below n digits of weight n: what Barrett's product drops. */
  lemma {:induction false} LowColumnsBound(a: seq<nat>, na: nat, b: seq<nat>, nb: nat, n: nat, j: nat)
    requires na <= |a| && nb <= |b| && Digits(a, na) && Digits(b, nb) && j <= n
    ensures Cols(a, na, b, nb, 0, j) <= n * ((BASE - 1) * W(j))
  {
    if j > 0 {
      LowColumnsBound(a, na, b, nb, n, j - 1);
      ColBound(a, na, b, nb, j - 1);
      DropStep(n, j, Col(a, na, b, nb, j - 1), W(j - 1));
    }
  }

  lemma DropStep(n: nat, j: nat, col: nat, w: nat)
    requires 0 < j <= n && col <= j * DIGIT_SQUARE
    ensures n * ((BASE - 1) * w) + col * w <= n * ((BASE - 1) * (BASE * w))
  {
    MulMono(j, n, DIGIT_SQUARE);
    MulMono(col, n * DIGIT_SQUARE, w);
    assert n * DIGIT_SQUARE * w == DIGIT_SQUARE * (n * w);
    assert n * ((BASE - 1) * w) == (BASE - 1) * (n * w);
    assert n * ((BASE - 1) * (BASE * w)) == (BASE - 1) * BASE * (n * w);
  }

  // ----- the symmetric columns of a square

  lemma {:induction false} ColBottom(a: seq<nat>, b: seq<nat>, nb: nat, k: nat, lo: nat, hi: nat)
    requires lo < hi <= |a| && nb <= |b|
    ensures ColSum(a, b, nb, k, lo, hi) == a[lo] * At(b, nb, k - lo) + ColSum(a, b, nb, k, lo + 1, hi)
    decreases hi
  {
    if lo + 1 < hi {
      ColBottom(a, b, nb, k, lo, hi - 1);
    }
  }

  lemma {:induction false} ColConcat(a: seq<nat>, b: seq<nat>, nb: nat, k: nat, lo: nat, mid: nat, hi: nat)
    requires lo <= mid <= hi <= |a| && nb <= |b|
    ensures ColSum(a, b, nb, k, lo, hi) == ColSum(a, b, nb, k, lo, mid) + ColSum(a, b, nb, k, mid, hi)
    decreases hi
  {
    if mid < hi {
      ColConcat(a, b, nb, k, lo, mid, hi - 1);
    }
  }

  /** Reading a column of a square backwards: i and k - i change places. */
  lemma {:induction false} ColMirror(a: seq<nat>, n: nat, k: nat, lo: nat, hi: nat)
    requires n <= |a| && lo <= hi <= n && hi <= k + 1 && k < lo + n
    ensures ColSum(a, a, n, k, lo, hi) == ColSum(a, a, n, k, k + 1 - hi, k + 1 - lo)
    decreases hi - lo
  {
    if lo < hi {
      ColMirror(a, n, k, lo, hi - 1);
      ColBottom(a, a, n, k, k + 1 - hi, k + 1 - lo);
      assert a[hi - 1] * At(a, n, k - (hi - 1)) == a[k + 1 - hi] * At(a, n, k - (k + 1 - hi));
    }
  }

  /**
   A column of a square is twice its first half, plus the square term in even columns; ty and tx are
   the positions the source starts from.
   */
  lemma SquareColumn(a: seq<nat>, n: nat, k: nat, tx: nat, ty: nat, iy: nat)
    requires 0 < n <= |a| && k + 1 < 2 * n
    requires ty == (if n - 1 < k then n - 1 else k) && tx == k - ty && iy == (ty - tx + 1) / 2
    ensures Col(a, n, a, n, k) ==
            2 * ColSum(a, a, n, k, tx, tx + iy) + if k % 2 == 0 then a[k / 2] * a[k / 2] else 0
  {
    ColTrim(a, a, n, k, 0, n, tx, ty + 1);
    var mid := tx + iy;
    ColConcat(a, a, n, k, tx, mid, ty + 1);
    ColMirror(a, n, k, tx, mid);
    assert k + 1 - tx == ty + 1;
    if k % 2 == 0 {
      assert k + 1 - mid == mid + 1 && mid == k / 2;
      ColBottom(a, a, n, k, mid, ty + 1);
    } else {
      assert k + 1 - mid == mid;
    }
  }
}
