/** The digit-level multipliers: comba columns, baseline rows, whole, low and high products. */
module Multiply {
  import opened Arith
  import opened Radix
  import opened MpInts
  import opened Columns
  import AddSub

  const MP_WARRAY: nat := 512      // 1 << (64 - 2 * DIGIT_BIT + 1)
  const MAX_COMBA: nat := 256      // 1 << (64 - 2 * DIGIT_BIT)
  const MAX_CARRY: nat := 0x10_0000_0000  // WORD_WRAP / BASE

  function Min(x: int, y: int): int {
    if x < y then x else y
  }

  /** Sum j is the one before it and the next product, and fits the accumulator. */
  ghost predicate Adds(sums: seq<nat>, x: seq<nat>, y: seq<nat>, tx: nat, ty: int, j: nat)
    requires 0 < j < |sums| && tx + j <= |x| && 0 <= ty - j + 1 < |y|
  {
    sums[j] == sums[j - 1] + x[tx + j - 1] * y[ty - j + 1] < WORD_WRAP
  }

  /**
   The inner comba loop, on an mp_word accumulator that wraps around; `sums` lists the values it should take.
   */
  method Accumulate(x: seq<nat>, y: seq<nat>, tx: nat, ty: int, iy: nat, acc: nat, ghost sums: seq<nat>)
    returns (w: nat)
    requires tx + iy <= |x| && iy - 1 <= ty < |y| && |sums| == iy + 1 && sums[0] == acc
    requires forall j :: 0 < j <= iy ==> Adds(sums, x, y, tx, ty, j)
    ensures w == sums[iy]
  {
    w := acc;
    var iz: nat := 0;
    while iz < iy
      invariant iz <= iy && w == sums[iz]
    {
      assert Adds(sums, x, y, tx, ty, iz + 1);
      w := (w + x[tx + iz] * y[ty - iz]) % WORD_WRAP;
      iz := iz + 1;
    }
  }

  /**
   One column of a comba product: add column ix of a * b to the accumulator.  With at most MAX_COMBA products in a
   column it never wraps.
   */
  method CombaColumn(a: seq<nat>, na: nat, b: seq<nat>, nb: nat, ix: nat, acc: nat) returns (w: nat)
    requires na <= |a| && nb <= |b| && Digits(a, na) && Digits(b, nb) && ix < na + nb
    requires Min(na, nb) <= MAX_COMBA && acc < MAX_CARRY
    ensures w == acc + Col(a, na, b, nb, ix) && w < WORD_WRAP
  {
    var ty: int := Min(nb - 1, ix);
    var tx: nat := ix - ty;
    var iy: nat := Min(na - tx, ty + 1);
    ColumnRange(a, na, b, nb, ix, tx, ty, iy);
    ghost var sums := Sums(a, b, nb, ix, tx, iy, acc);
    ghost var last := sums[iy];
    assert last == acc + Col(a, na, b, nb, ix);
    SumsGrow(a, b, nb, ix, tx, ty, iy, acc, sums);
    w := Accumulate(a, b, tx, ty, iy, acc, sums);
  }

  /** The start and the length of the inner loop select exactly the products of the column. */
  lemma ColumnRange(a: seq<nat>, na: nat, b: seq<nat>, nb: nat, ix: nat, tx: nat, ty: int, iy: nat)
    requires na <= |a| && nb <= |b| && ix < na + nb && Min(na, nb) <= MAX_COMBA
    requires ty == Min(nb - 1, ix) && tx == ix - ty && iy == Min(na - tx, ty + 1)
    ensures tx + iy <= na && iy - 1 <= ty < nb && iy <= MAX_COMBA
    ensures Col(a, na, b, nb, ix) == ColSum(a, b, nb, ix, tx, tx + iy)
  {
    ColTrim(a, b, nb, ix, 0, na, tx, tx + iy);
  }

  /** The values the accumulator takes in column k, product by product. */
  ghost function Sums(a: seq<nat>, b: seq<nat>, nb: nat, k: nat, lo: nat, n: nat, acc: nat): (r: seq<nat>)
    requires lo + n <= |a| && nb <= |b|
    ensures |r| == n + 1 && r[0] == acc
    ensures forall j :: 0 <= j <= n ==> r[j] == acc + ColSum(a, b, nb, k, lo, lo + j)
  {
    if n == 0 then [acc] else Sums(a, b, nb, k, lo, n - 1, acc) + [acc + ColSum(a, b, nb, k, lo, lo + n)]
  }

  lemma SumsGrow(a: seq<nat>, b: seq<nat>, nb: nat, k: nat, lo: nat, ty: int, n: nat, acc: nat, sums: seq<nat>)
    requires lo + n <= |a| && nb <= |b| && Digits(a, lo + n) && Digits(b, nb)
    requires lo + ty == k && n - 1 <= ty < nb && n <= MAX_COMBA && acc < MAX_CARRY
    requires |sums| == n + 1 && forall j :: 0 <= j <= n ==> sums[j] == acc + ColSum(a, b, nb, k, lo, lo + j)
    ensures sums[n] < WORD_WRAP && forall j :: 0 < j <= n ==> Adds(sums, a, b, lo, ty, j)
  {
    forall j | 0 < j <= n ensures Adds(sums, a, b, lo, ty, j) {
      ColumnRoom(a, b, nb, k, lo, lo + j - 1, acc);
    }
    assert if n > 0 then Adds(sums, a, b, lo, ty, n) else sums[n] == acc;
  }

  /** The next product of a column fits on top of the ones already added. */
  lemma ColumnRoom(a: seq<nat>, b: seq<nat>, nb: nat, k: nat, lo: nat, i: nat, acc: nat)
    requires lo <= i < |a| && nb <= |b| && 0 <= k - i < nb && Digits(a, i + 1) && Digits(b, nb)
    requires acc < MAX_CARRY && i < lo + MAX_COMBA
    ensures ColSum(a, b, nb, k, lo, i + 1) == ColSum(a, b, nb, k, lo, i) + a[i] * b[k - i]
    ensures acc + ColSum(a, b, nb, k, lo, i + 1) < WORD_WRAP
  {
    ColSumBound(a, b, nb, k, lo, i + 1);
  }

  /** The digits w[from..ix) and the carry u make up the number sum. */
  ghost predicate Stored(w: seq<nat>, from: nat, ix: nat, u: nat, sum: nat)
    requires from <= ix <= |w|
  {
    (forall k :: from <= k < ix ==> w[k] < BASE) && Val(w, from, ix) + u * W(ix - from) == sum
  }

  /** One finished column: its low digit is stored, the rest is carried. */
  lemma StoreColumn(w: seq<nat>, w': seq<nat>, from: nat, ix: nat, u: nat, u': nat, col: nat, sum: nat, sum': nat)
    requires from <= ix < |w| && ix < |w'| && (forall k :: from <= k < ix ==> w'[k] == w[k])
    requires u + col == w'[ix] + BASE * u' && w'[ix] < BASE
    requires Stored(w, from, ix, u, sum) && sum' == sum + col * W(ix - from)
    ensures Stored(w', from, ix + 1, u', sum')
  {
    ValSame(w, w', from, ix);
    ValTop(w', from, ix);
    AddSub.CarryStep(W(ix - from), u, col, 0, w'[ix], u');
  }

  /**
   The column loop of fast_s_mp_mul_digs (from = 0) and fast_s_mp_mul_high_digs (from = digs): w[from..pa) are the
   digits of columns from..pa-1, and what is carried out of column pa-1 is dropped.
   */
  method CombaColumns(a: MpInt, b: MpInt, from: nat, pa: nat, stale: seq<nat>) returns (w: seq<nat>, ghost carry: nat)
    requires a.Clamped() && b.Clamped() && from <= pa <= a.used + b.used && pa <= |stale|
    requires Min(a.used, b.used) <= MAX_COMBA
    ensures |w| == |stale|
    ensures forall k :: from <= k < pa ==> w[k] < BASE
    ensures forall k :: 0 <= k < |w| && !(from <= k < pa) ==> w[k] == stale[k]
    ensures Val(w, from, pa) + carry * W(pa - from) == Cols(a.dp, a.used, b.dp, b.used, from, pa)
  {
    w := stale;
    var acc: nat, ix := 0, from;
    ghost var sum: nat := 0;
    while ix < pa
      invariant from <= ix <= pa && |w| == |stale| && acc < MAX_CARRY
      invariant forall k :: 0 <= k < |w| && !(from <= k < ix) ==> w[k] == stale[k]
      invariant Stored(w, from, ix, acc, sum)
      invariant sum == Cols(a.dp, a.used, b.dp, b.used, from, ix)
    {
      ghost var sum' := Cols(a.dp, a.used, b.dp, b.used, from, ix + 1);
      w, acc := ColumnStep(a, b, from, ix, w, acc, sum, sum');
      sum := sum';
      ix := ix + 1;
    }
    carry := acc;
  }

  /** The body of the column loop. */
  method ColumnStep(a: MpInt, b: MpInt, from: nat, ix: nat, w0: seq<nat>, acc0: nat, ghost sum: nat, ghost sum': nat)
    returns (w: seq<nat>, acc: nat)
    requires a.Clamped() && b.Clamped() && from <= ix < a.used + b.used && ix < |w0|
    requires Min(a.used, b.used) <= MAX_COMBA && acc0 < MAX_CARRY
    requires Stored(w0, from, ix, acc0, sum) && sum' == sum + Col(a.dp, a.used, b.dp, b.used, ix) * W(ix - from)
    ensures |w| == |w0| && acc < MAX_CARRY && Stored(w, from, ix + 1, acc, sum')
    ensures forall k :: 0 <= k < |w| && k != ix ==> w[k] == w0[k]
  {
    acc := CombaColumn(a.dp, a.used, b.dp, b.used, ix, acc0);
    w := w0[ix := acc % DIGIT_WRAP % BASE];
    acc := acc / BASE;
    StoreColumn(w0, w, from, ix, acc0, acc, Col(a.dp, a.used, b.dp, b.used, ix), sum, sum');
  }

  /** What the low columns leave after dropping the carry: the product modulo W(digs). */
  lemma LowProduct(a: seq<nat>, na: nat, b: seq<nat>, nb: nat, digs: nat, pa: nat, v: nat, carry: nat)
    requires na <= |a| && nb <= |b| && Digits(a, na) && Digits(b, nb)
    requires pa == Min(digs, na + nb) && v < W(pa)
    requires v + carry * W(pa) == Cols(a, na, b, nb, 0, pa)
    ensures v == (Val(a, 0, na) * Val(b, 0, nb)) % W(digs)
  {
    var h := LowColumns(a, na, b, nb, pa);
    var ab := Val(a, 0, na) * Val(b, 0, nb);
    DroppedCarry(ab, Cols(a, na, b, nb, 0, pa), v, carry, h, W(pa));
    if pa < digs {
      ProductDigits(a, na, b, nb);
      WMono(pa, digs);
      DivUnique(ab, W(pa), 0, ab);
      DivUnique(ab, W(digs), 0, ab);
    }
  }

  lemma DroppedCarry(ab: int, low: int, v: nat, carry: nat, h: nat, w: nat)
    requires v < w && low == v + carry * w && ab == low + w * h
    ensures ab % w == v
  {
    Distribute(carry, h, w);
    DivUnique(ab, w, carry + h, v);
  }

  lemma ProductDigits(a: seq<nat>, na: nat, b: seq<nat>, nb: nat)
    requires na <= |a| && nb <= |b| && Digits(a, na) && Digits(b, nb)
    ensures 0 <= Val(a, 0, na) * Val(b, 0, nb) < W(na + nb)
  {
    ValBound(a, 0, na);
    ValBound(b, 0, nb);
    WAdd(na, nb);
    ProductBelow(Val(a, 0, na), W(na), Val(b, 0, nb), W(nb));
  }

  lemma ProductBelow(x: nat, p: nat, y: nat, q: nat)
    requires x < p && y < q
    ensures 0 <= x * y < p * q
  {
    MulMono(x, p - 1, y);
    MulMono(y, q - 1, p - 1);
    assert (p - 1) * (q - 1) == p * q - p - q + 1;
  }

  /** c's buffer is zero above `used`, except for one word. */
  ghost predicate CleanBut(c: MpInt, at: nat, word: nat)
    reads c
  {
    forall k :: c.used <= k < |c.dp| ==> c.dp[k] == if k == at then word else 0
  }

  /**
   fast_s_mp_mul_digs: the low digs digits of |a| * |b|; c may be a or b.  The copy loop takes one column more than was
   computed: `word` is what W happens to hold there.  The copy lies past the buffer, and is left out here, exactly when
   digs digits are computed into a buffer of digs digits.
   */
  method FastMulDigs(a: MpInt, b: MpInt, c: MpInt, digs: nat, word: nat) returns (overrun: bool)
    requires a.Clamped() && b.Clamped() && c.used <= |c.dp|
    requires digs < MP_WARRAY && Min(a.used, b.used) <= MAX_COMBA
    modifies c
    ensures c.Valid() && c.Mag() == (old(a.Mag()) * old(b.Mag())) % W(digs)
    ensures c.neg == (old(c.neg) && c.used > 0)
    ensures c.used <= Min(digs, old(a.used) + old(b.used))
    ensures overrun <==> digs <= old(a.used) + old(b.used) && |old(c.dp)| == digs
    ensures !overrun ==> Min(digs, old(a.used) + old(b.used)) < |c.dp|
    ensures old(c.Clean()) ==> CleanBut(c, Min(digs, old(a.used) + old(b.used)), if overrun then 0 else word)
    ensures digs > 0 ==> LowIs(c, word)
  {
    var pa := Min(digs, a.used + b.used);
    var w := Uninitialised(MP_WARRAY);
    w := w[pa := word];
    ghost var carry;
    w, carry := CombaColumns(a, b, 0, pa, w);
    ValBound(w, 0, pa);
    LowProduct(a.dp, a.used, b.dp, b.used, digs, pa, Val(w, 0, pa), carry);
    c.Grow(digs);
    overrun := pa == |c.dp|;
    StoreColumns(c, w, 0, pa, if overrun then pa else pa + 1);
  }

  /** A local array that nothing has been written to: any contents at all. */
  method Uninitialised(n: nat) returns (w: seq<nat>)
    ensures |w| == n
  {
    w := [];
    while |w| < n
      invariant |w| <= n
    {
      var any: nat := *;
      w := w + [any];
    }
  }

  /** One word of such an array. */
  method AnyWord() returns (word: nat)
  {
    word := *;
  }

  /** "setup dest": copy w[from..upto) to the same places of c, whose digit count becomes pa, and tidy up. */
  method StoreColumns(c: MpInt, w: seq<nat>, from: nat, pa: nat, upto: nat)
    requires c.used <= |c.dp| && pa <= upto <= |c.dp| && upto <= |w| && from <= upto
    requires forall k :: from <= k < pa ==> w[k] < BASE
    requires forall k :: 0 <= k < from && k < pa ==> c.dp[k] < BASE
    modifies c
    ensures c.Valid() && c.used <= pa <= |c.dp|
    ensures c.neg == (old(c.neg) && c.used > 0)
    ensures from <= pa ==>
              Val(old(c.dp), 0, from) < W(from) && c.Mag() == Val(old(c.dp), 0, from) + W(from) * Val(w, from, pa)
    ensures pa <= from ==> c.Mag() < W(pa)
    ensures |c.dp| == |old(c.dp)|
    ensures old(c.Clean()) ==>
              forall k :: c.used <= k < |c.dp| && from <= k ==> c.dp[k] == if pa <= k < upto then w[k] else 0
    ensures from == 0 && upto == pa ==> LowKept(c, old(c.used), old(c.dp))
    ensures from == 0 < upto ==> LowIs(c, if pa > 0 then 0 else w[0])
  {
    var olduse := c.used;
    c.used := pa;
    var ix := from;
    while ix < upto
      invariant from <= ix <= upto && |c.dp| == |old(c.dp)| && c.used == pa && c.neg == old(c.neg)
      invariant forall k :: from <= k < ix ==> c.dp[k] == w[k]
      invariant forall k :: 0 <= k < |c.dp| && !(from <= k < ix) ==> c.dp[k] == old(c.dp)[k]
    {
      c.dp := c.dp[ix := w[ix]];
      ix := ix + 1;
    }
    if from <= pa {
      ValSplit(c.dp, 0, from, pa);
      ValSame(c.dp, old(c.dp), 0, from);
      ValSame(c.dp, w, from, pa);
      ValBound(c.dp, 0, from);
    }
    ValBound(c.dp, 0, pa);
    c.Settle(upto, olduse);
  }

  // ----- baseline rows

  /** One step of a row: digit y of the other operand meets the multiplier x at weight p = q * w. */
  lemma RowStep(v: int, v': int, t: nat, d: nat, x: nat, y: nat, u: nat, u': nat, vb: nat, w: nat, q: nat, p: nat)
    requires v' == v + (d - t) * p && t + x * y + u == d + BASE * u' && p == q * w
    ensures v' + u' * (BASE * p) == v + u * p + x * (q * (y * w))
    ensures x * (q * (vb + y * w)) == x * (q * vb) + x * (q * (y * w))
  {
    assert (t + x * y + u) * p == (d + BASE * u') * p;
    assert x * (q * (y * w)) == (x * y) * p by {
      assert q * (y * w) == y * p;
    }
    assert q * (vb + y * w) == q * vb + q * (y * w);
  }

  /** Machine words; only the Montgomery reduction meets some that are not proper digits. */
  ghost predicate MachineWords(t: seq<nat>) {
    forall k :: 0 <= k < |t| ==> t[k] < DIGIT_WRAP
  }

  /**
   The inner loop that s_mp_mul_digs, s_mp_mul_high_digs and mp_montgomery_reduce share: t += x * b[lo..hi) at digit
   position pos, with the final carry returned.
   */
  method MulAddRow(t0: seq<nat>, pos: nat, x: nat, b: MpInt, lo: nat, hi: nat) returns (t: seq<nat>, u: nat)
    requires b.Clamped() && lo <= hi <= b.used && pos + (hi - lo) <= |t0| && x < BASE
    requires MachineWords(t0)
    ensures |t| == |t0| && u < 2 * BASE && (Digits(t0, |t0|) ==> u < BASE)
    ensures forall k :: pos <= k < pos + (hi - lo) ==> t[k] < BASE
    ensures forall k :: 0 <= k < |t| && !(pos <= k < pos + (hi - lo)) ==> t[k] == t0[k]
    ensures Val(t, 0, |t|) + u * W(pos + (hi - lo)) == Val(t0, 0, |t|) + x * (W(pos) * Val(b.dp, lo, hi))
  {
    t, u := t0, 0;
    var iy := lo;
    while iy < hi
      invariant lo <= iy <= hi && |t| == |t0| && u < 2 * BASE && (Digits(t0, |t0|) ==> u < BASE)
      invariant forall k :: pos <= k < pos + (iy - lo) ==> t[k] < BASE
      invariant forall k :: 0 <= k < |t| && !(pos <= k < pos + (iy - lo)) ==> t[k] == t0[k]
      invariant Val(t, 0, |t|) + u * W(pos + (iy - lo)) == Val(t0, 0, |t|) + x * (W(pos) * Val(b.dp, lo, iy))
    {
      t, u := RowDigit(t, pos, x, b.dp, lo, iy, u);
      iy := iy + 1;
    }
  }

  /** The body of that loop. */
  method RowDigit(t0: seq<nat>, pos: nat, x: nat, b: seq<nat>, lo: nat, iy: nat, u0: nat) returns (t: seq<nat>, u: nat)
    requires lo <= iy < |b| && b[iy] < BASE && x < BASE && u0 < 2 * BASE
    requires pos + (iy - lo) < |t0| && t0[pos + (iy - lo)] < DIGIT_WRAP
    ensures |t| == |t0| && t[pos + (iy - lo)] < BASE && u < 2 * BASE
    ensures t0[pos + (iy - lo)] < BASE && u0 < BASE ==> u < BASE
    ensures forall k :: 0 <= k < |t| && k != pos + (iy - lo) ==> t[k] == t0[k]
    ensures Val(t, 0, |t|) + u * W(pos + (iy + 1 - lo)) - x * (W(pos) * Val(b, lo, iy + 1)) ==
            Val(t0, 0, |t|) + u0 * W(pos + (iy - lo)) - x * (W(pos) * Val(b, lo, iy))
  {
    var at := pos + (iy - lo);
    RowWord(t0[at], x, b[iy], u0);
    var r := (t0[at] + x * b[iy] + u0) % WORD_WRAP;
    t := t0[at := r % BASE];
    u := r / BASE;
    RowColumn(t0, t, pos, x, b, lo, iy, u0, r % BASE, u);
  }

  lemma RowColumn(t0: seq<nat>, t: seq<nat>, pos: nat, x: nat, b: seq<nat>, lo: nat, iy: nat, u0: nat, d: nat, u: nat)
    requires lo <= iy < |b| && pos + (iy - lo) < |t0| && t == t0[pos + (iy - lo) := d]
    requires t0[pos + (iy - lo)] + x * b[iy] + u0 == d + BASE * u
    ensures Val(t, 0, |t|) + u * W(pos + (iy + 1 - lo)) - x * (W(pos) * Val(b, lo, iy + 1)) ==
            Val(t0, 0, |t|) + u0 * W(pos + (iy - lo)) - x * (W(pos) * Val(b, lo, iy))
  {
    var at := pos + (iy - lo);
    ValSet(t0, at, d, 0, |t|);
    ValTop(b, lo, iy);
    WAdd(pos, iy - lo);
    RowStep(Val(t0, 0, |t|), Val(t, 0, |t|), t0[at], d, x, b[iy], u0, u, Val(b, lo, iy), W(iy - lo), W(pos), W(at));
  }

  /** A word, a product of digits and a carry fit an mp_word; on digits the carry stays a digit. */
  lemma RowWord(t: nat, x: nat, y: nat, u: nat)
    requires t < DIGIT_WRAP && x < BASE && y < BASE && u < 2 * BASE
    ensures 0 <= x * y && t + x * y + u < WORD_WRAP && (t + x * y + u) / BASE < 2 * BASE
    ensures t < BASE && u < BASE ==> (t + x * y + u) / BASE < BASE
  {
    DigitProduct(x, y);
  }

  /**
   "propagate carries upwards", in mp_montgomery_reduce and s_mp_sqr: the loop stays inside m digits because the number
   does.  A word near the top of its range wraps around, and what it stood for is lost; a digit never does.
   */
  method CarryUp(t0: seq<nat>, j0: nat, u0: nat, m: nat, ghost all: nat) returns (t: seq<nat>, ghost lost: nat)
    requires MachineWords(t0) && u0 < 2 * BASE && m <= |t0| && all < W(m)
    requires Val(t0, 0, |t0|) + u0 * W(j0) == all
    ensures |t| == |t0| && lost * W(j0) >= 0 && Val(t, 0, |t|) + lost * W(j0) == all
    ensures Digits(t0, |t0|) ==> lost == 0
    ensures forall j :: 0 <= j < |t| ==> t[j] == t0[j] || (t[j] < BASE && j0 <= j < m)
  {
    t := t0;
    var j: nat, u: nat := j0, u0;
    lost := 0;
    MulZero(W(j0));
    CarryInside(Val(t, 0, |t|), u, j, m, lost, W(j0), all);
    while u != 0
      invariant j0 <= j && |t| == |t0| && MachineWords(t) && u < 2 * BASE && (u != 0 ==> j < m)
      invariant Val(t, 0, |t|) + u * W(j) + lost * W(j0) == all
      invariant Digits(t0, |t0|) ==> Digits(t, |t|) && lost == 0
      invariant forall j :: 0 <= j < |t| ==> t[j] == t0[j] || (t[j] < BASE && j0 <= j < m)
      decreases m - j, u
    {
      ghost var more;
      t, u, more := CarryDigit(t, j, u);
      LostUnits(more, j0, j);
      Distribute(lost, more * W(j - j0), W(j0));
      lost := lost + more * W(j - j0);
      j := j + 1;
      CarryInside(Val(t, 0, |t|), u, j, m, lost, W(j0), all);
    }
    MulZero(W(j));
    MulMono(0, lost, W(j0));
  }

  lemma LostUnits(more: nat, j0: nat, j: nat)
    requires j0 <= j
    ensures more * W(j - j0) >= 0 && (more * W(j - j0)) * W(j0) == more * W(j)
  {
    WAdd(j - j0, j0);
    MulMono(0, more, W(j - j0));
    assert (more * W(j - j0)) * W(j0) == more * (W(j - j0) * W(j0));
  }

  lemma CarryInside(v: nat, u: nat, j: nat, m: nat, lost: nat, w0: nat, all: nat)
    requires v + u * W(j) + lost * w0 == all && all < W(m)
    ensures u != 0 ==> j < m
  {
    MulMono(0, lost, w0);
    if u != 0 && j >= m {
      WMono(m, j);
      MulMono(1, u, W(j));
    }
  }

  /** One word of the carry loop; `lost` is what wraps around. */
  method CarryDigit(t0: seq<nat>, j: nat, u0: nat) returns (t: seq<nat>, u: nat, ghost lost: nat)
    requires MachineWords(t0) && j < |t0| && u0 < 2 * BASE
    ensures |t| == |t0| && t[j] < BASE && u < BASE
    ensures Val(t, 0, |t|) + u * W(j + 1) + lost * W(j) == Val(t0, 0, |t0|) + u0 * W(j)
    ensures t0[j] < BASE ==> lost == 0
    ensures forall i :: 0 <= i < |t| && i != j ==> t[i] == t0[i]
  {
    var sum := (t0[j] + u0) % DIGIT_WRAP;
    lost := t0[j] + u0 - sum;
    u := sum / BASE;
    t := t0[j := sum % BASE];
    ValSet(t0, j, t[j], 0, |t0|);
    CarryArith(t[j], t0[j], u0, u, lost, W(j));
  }

  lemma CarryArith(d: int, t: int, u0: int, u: int, lost: int, p: int)
    requires t + u0 == d + BASE * u + lost
    ensures (d - t) * p + u * (BASE * p) + lost * p == u0 * p
  {
    assert (d - t) * p + u * (BASE * p) + lost * p == (d - t + BASE * u + lost) * p;
  }

  /** s_mp_mul_digs: the low digs digits of |a| * |b|. */
  method MulDigs(a: MpInt, b: MpInt, c: MpInt, digs: nat, word: nat) returns (overrun: bool)
    requires a.Clamped() && b.Clamped() && c.used <= |c.dp|
    modifies c
    ensures c.Valid() && c.Mag() == (old(a.Mag()) * old(b.Mag())) % W(digs)
    ensures digs < MP_WARRAY && Min(old(a.used), old(b.used)) < MAX_COMBA ==> c.neg == (old(c.neg) && c.used > 0)
    ensures !old(c.neg) ==> !c.neg
    ensures c.used <= digs
    ensures overrun <==> digs < MP_WARRAY && Min(old(a.used), old(b.used)) < MAX_COMBA &&
                         digs <= old(a.used) + old(b.used) && |old(c.dp)| == digs
    ensures !(digs < MP_WARRAY && Min(old(a.used), old(b.used)) < MAX_COMBA) ==> c.Clean()
    ensures digs > 0 ==> LowIs(c, word)
  {
    if digs < MP_WARRAY && Min(a.used, b.used) < MAX_COMBA {
      overrun := FastMulDigs(a, b, c, digs, word);
      return;
    }
    var t := MulRows(a, b, digs);
    MoveDigits(c, t, digs);
    overrun := false;
  }

  /** "mp_clamp (&t); mp_exch (&t, c)" for a temporary whose digits are t[..used). */
  method MoveDigits(c: MpInt, t: seq<nat>, used: nat)
    requires used <= |t| && Digits(t, used)
    modifies c
    ensures c.Valid() && c.Mag() == Val(t, 0, used) && !c.neg && c.used <= used && |c.dp| == |t|
    ensures (forall k :: used <= k < |t| ==> t[k] == 0) ==> c.Clean()
  {
    c.neg, c.used, c.dp := false, used, t;
    c.Clamp();
  }

  /** One row of s_mp_mul_digs, cut off at digs digits; `over` is the carry that falls off the end. */
  method LowRow(t0: seq<nat>, ix: nat, x: nat, b: MpInt) returns (t: seq<nat>, ghost over: nat)
    requires b.Clamped() && Digits(t0, |t0|) && x < BASE
    requires forall k :: 0 <= k < |t0| && ix + b.used <= k ==> t0[k] == 0
    ensures |t| == |t0| && Digits(t, |t|)
    ensures forall k :: 0 <= k < |t| && ix + 1 + b.used <= k ==> t[k] == 0
    ensures Val(t, 0, |t|) + over * W(|t|) == Val(t0, 0, |t|) + x * (W(ix) * Val(b.dp, 0, Clip(|t| - ix, b.used)))
  {
    var digs := |t0|;
    var pb := Min(b.used, digs - ix);
    var u: nat, iy: nat := 0, 0;
    t := t0;
    if 0 < pb {
      t, u := MulAddRow(t, ix, x, b, 0, pb);
      iy := pb;
    }
    over := 0;
    if ix + iy < digs {
      ValSet(t, ix + iy, u, 0, digs);
      t := t[ix + iy := u];
    } else {
      over := u;
    }
  }

  /** The row loop of s_mp_mul_digs. */
  method MulRows(a: MpInt, b: MpInt, digs: nat) returns (t: seq<nat>)
    requires a.Clamped() && b.Clamped()
    ensures |t| == digs && Digits(t, digs)
    ensures Val(t, 0, digs) == (a.Mag() * b.Mag()) % W(digs)
  {
    t := seq(digs, _ => 0);
    ValZeros(t, 0, digs);
    ghost var dropped: nat, over: nat := 0, 0;
    var ix := 0;
    while ix < a.used
      invariant ix <= a.used && |t| == digs && Digits(t, digs)
      invariant forall k :: 0 <= k < digs && ix + b.used <= k ==> t[k] == 0
      invariant Val(t, 0, digs) + dropped * W(digs) == Rows(a.dp, b.dp, b.used, ix, digs)
    {
      ghost var before := Val(t, 0, digs);
      t, over := LowRow(t, ix, a.dp[ix], b);
      RowAdded(before, Val(t, 0, digs), dropped, over, Rows(a.dp, b.dp, b.used, ix, digs),
               a.dp[ix] * (W(ix) * Val(b.dp, 0, Clip(digs - ix, b.used))), W(digs));
      dropped := dropped + over;
      ix := ix + 1;
    }
    ValBound(t, 0, digs);
    LowRows(a.dp, a.used, b.dp, b.used, digs, Val(t, 0, digs), dropped);
  }

  lemma RowAdded(v: int, v': int, dropped: int, over: int, rows: int, row: int, w: int)
    requires v + dropped * w == rows && v' + over * w == v + row
    ensures v' + (dropped + over) * w == rows + row
  {
    Distribute(dropped, over, w);
  }

  lemma LowRows(a: seq<nat>, na: nat, b: seq<nat>, nb: nat, digs: nat, v: nat, dropped: nat)
    requires na <= |a| && nb <= |b| && v < W(digs)
    requires v + dropped * W(digs) == Rows(a, b, nb, na, digs)
    ensures v == (Val(a, 0, na) * Val(b, 0, nb)) % W(digs)
  {
    var h := LowColumns(a, na, b, nb, digs);
    ColsAreRows(a, na, b, nb, digs);
    DroppedCarry(Val(a, 0, na) * Val(b, 0, nb), Rows(a, b, nb, na, digs), v, dropped, h, W(digs));
  }

  // ----- high products

  /**
   fast_s_mp_mul_high_digs: only the columns at or above digs, with nothing carried into them.  c may be a or b; the
   digits of c below digs keep whatever they held.
   */
  method FastMulHighDigs(a: MpInt, b: MpInt, c: MpInt, digs: nat)
    requires a.Clamped() && b.Clamped() && c.Clamped() && c.Clean()
    requires a.used + b.used < MP_WARRAY && Min(a.used, b.used) <= MAX_COMBA && digs <= a.used + b.used
    modifies c
    ensures c.Valid() && c.neg == (old(c.neg) && c.used > 0)
    ensures c.Mag() / W(digs) == old(Cols(a.dp, a.used, b.dp, b.used, digs, a.used + b.used))
    ensures |c.dp| >= old(a.used) + old(b.used)
  {
    var pa := a.used + b.used;
    var w := Uninitialised(MP_WARRAY);
    ghost var cols := Cols(a.dp, a.used, b.dp, b.used, digs, pa);
    w := HighColumns(a, b, digs, w);
    StoreHigh(c, w, digs, pa, cols);
  }

  /** "setup dest" of fast_s_mp_mul_high_digs. */
  method StoreHigh(c: MpInt, w: seq<nat>, digs: nat, pa: nat, ghost cols: nat)
    requires c.Clamped() && c.Clean() && digs <= pa <= |w| && Val(w, digs, pa) == cols
    requires forall k :: digs <= k < pa ==> w[k] < BASE
    modifies c
    ensures c.Valid() && c.neg == (old(c.neg) && c.used > 0) && c.Mag() / W(digs) == cols && |c.dp| >= pa
  {
    c.Grow(pa);
    ghost var low := Val(c.dp, 0, digs);
    StoreColumns(c, w, digs, pa, pa);
    QuotientOf(c.Mag(), low, W(digs), cols);
  }

  /** Its column loop; the digits make up all the high columns. */
  method HighColumns(a: MpInt, b: MpInt, digs: nat, stale: seq<nat>) returns (w: seq<nat>)
    requires a.Clamped() && b.Clamped() && digs <= a.used + b.used <= |stale| && Min(a.used, b.used) <= MAX_COMBA
    ensures |w| == |stale| && forall k :: digs <= k < a.used + b.used ==> w[k] < BASE
    ensures Val(w, digs, a.used + b.used) == Cols(a.dp, a.used, b.dp, b.used, digs, a.used + b.used)
  {
    ghost var carry;
    w, carry := CombaColumns(a, b, digs, a.used + b.used, stale);
    TopColumns(a.dp, a.used, b.dp, b.used, digs, Val(w, digs, a.used + b.used), carry);
    MulZero(W(a.used + b.used - digs));
  }

  /** Nothing is carried out of the last column. */
  lemma TopColumns(a: seq<nat>, na: nat, b: seq<nat>, nb: nat, digs: nat, v: nat, carry: nat)
    requires na <= |a| && nb <= |b| && Digits(a, na) && Digits(b, nb) && digs <= na + nb
    requires v + carry * W(na + nb - digs) == Cols(a, na, b, nb, digs, na + nb)
    ensures carry == 0
  {
    ColsSplit(a, na, b, nb, digs, na + nb);
    ColsFull(a, na, b, nb, na + nb);
    ProductDigits(a, na, b, nb);
    WAdd(digs, na + nb - digs);
    NoOverflow(Val(a, 0, na) * Val(b, 0, nb), Cols(a, na, b, nb, 0, digs), W(digs), Cols(a, na, b, nb, digs, na + nb),
               v, carry, W(na + nb - digs), W(na + nb));
  }

  lemma NoOverflow(ab: int, low: nat, wd: nat, high: int, v: nat, carry: nat, w: nat, top: nat)
    requires ab == low + wd * high && high == v + carry * w && top == wd * w && ab < top && wd > 0
    ensures carry == 0
  {
    if carry > 0 {
      MulMono(1, carry, w);
      MulMono(w, high, wd);
    }
  }

  /**
   s_mp_mul_high_digs.  The row loop starts row ix at digit digs - ix of b, so the code needs a->used <= digs + 1;
   mp_reduce, its only caller, provides that.
   */
  method MulHighDigs(a: MpInt, b: MpInt, c: MpInt, digs: nat)
    requires a.Clamped() && b.Clamped() && c.Clamped() && c.Clean()
    requires a.used <= digs + 1 && digs <= a.used + b.used
    modifies c
    ensures c.Valid()
    ensures !old(c.neg) ==> !c.neg
    ensures c.Mag() / W(digs) == old(Cols(a.dp, a.used, b.dp, b.used, digs, a.used + b.used))
    ensures |c.dp| >= old(a.used) + old(b.used)
  {
    if a.used + b.used + 1 < MP_WARRAY && Min(a.used, b.used) < MAX_COMBA {
      FastMulHighDigs(a, b, c, digs);
      return;
    }
    ghost var cols := Cols(a.dp, a.used, b.dp, b.used, digs, a.used + b.used);
    var t := HighRowLoop(a, b, digs);
    MoveDigits(c, t, |t|);
    QuotientOf(c.Mag(), 0, W(digs), cols);
  }

  /** One row of s_mp_mul_high_digs: digit x of a, at position ix, against the digits of b from digs - ix up. */
  method HighRow(t0: seq<nat>, ix: nat, x: nat, b: MpInt, digs: nat) returns (t: seq<nat>)
    requires b.Clamped() && Digits(t0, |t0|) && x < BASE && ix <= digs < |t0| && ix + b.used < |t0|
    requires forall k :: 0 <= k < |t0| && ix + b.used <= k ==> t0[k] == 0
    ensures |t| == |t0| && Digits(t, |t|)
    ensures forall k :: 0 <= k < |t| && ix + 1 + b.used <= k ==> t[k] == 0
    ensures Val(t, 0, |t|) == Val(t0, 0, |t|) + x * (W(digs) * Val(b.dp, Clip(digs - ix, b.used), b.used))
  {
    var iy: nat := digs - ix;
    if iy < b.used {
      var u;
      t, u := MulAddRow(t0, digs, x, b, iy, b.used);
      ValSet(t, ix + b.used, u, 0, |t|);
      t := t[ix + b.used := u];
    } else {
      t := t0[digs := 0];
      assert t == t0;
    }
  }

  /** The row loop of s_mp_mul_high_digs. */
  method HighRowLoop(a: MpInt, b: MpInt, digs: nat) returns (t: seq<nat>)
    requires a.Clamped() && b.Clamped() && a.used <= digs + 1 && digs <= a.used + b.used
    ensures |t| == a.used + b.used + 1 && Digits(t, |t|)
    ensures Val(t, 0, |t|) == W(digs) * Cols(a.dp, a.used, b.dp, b.used, digs, a.used + b.used)
  {
    var n := a.used + b.used + 1;
    t := seq(n, _ => 0);
    ValZeros(t, 0, n);
    var ix := 0;
    while ix < a.used
      invariant ix <= a.used && |t| == n && Digits(t, n)
      invariant forall k :: 0 <= k < n && ix + b.used <= k ==> t[k] == 0
      invariant Val(t, 0, n) == W(digs) * HighRows(a.dp, b.dp, b.used, ix, digs)
    {
      t := HighRow(t, ix, a.dp[ix], b, digs);
      Factor(W(digs), HighRows(a.dp, b.dp, b.used, ix, digs), a.dp[ix], Val(b.dp, Clip(digs - ix, b.used), b.used));
      ix := ix + 1;
    }
    HighRowsAreCols(a.dp, a.used, b.dp, b.used, digs, a.used + b.used);
  }
}
