/** Reduction modulo n = 2^p - d: fold the part above bit p back in, times d, until it is below n. */
module FoldReduction {
  import opened Arith
  import opened Radix
  import opened Congruences
  import opened MpInts
  import AddSub
  import SingleDigit
  import opened Bits
  import Montgomery
  import Multiply
  import Product

  /** mp_reduce_2k_setup_l: d = 2^p - a, where p is a's bit count. */
  method Setup2kL(a: MpInt, d: MpInt)
    requires a.Valid() && a.Mag() > 0 && d.used <= |d.dp| && !d.neg && a != d
    modifies d
    ensures d.Valid() && !d.neg && d.Mag() == Pow2(BitCount(a.Mag())) - a.Mag()
  {
    MagBounds(a);
    var tmp := new MpInt();
    var p := CountBits(a);
    BitCountIs(a.Mag(), p);
    TwoExpt(tmp, p);
    AddSub.SSub(tmp, a, d);
  }

  /** Folding keeps the residue and does not enlarge the number. */
  lemma Fold(a: nat, n: nat, d: nat, pw: nat, q: nat, l: nat)
    requires n > 0 && pw == n + d && a == q * pw + l
    ensures 0 <= q * d && l + q * d <= a && (l + q * d) % n == a % n
  {
    assert q * pw == q * d + q * n;
    MulMono(0, q, d);
    MulMono(0, q, n);
    ReduceTerm(l + q * d, q, n);
  }

  /** "q = a/2**p, a = a mod 2**p", "q = q * d", "a = a + q" */
  method FoldOnce(a: MpInt, n: MpInt, d: MpInt, p: nat)
    requires a.Valid() && !a.neg && d.Valid() && !d.neg && n.Valid() && a != d && a != n
    requires n.Mag() > 0 && p > 0 && d.Mag() + n.Mag() == Pow2(p)
    modifies a
    ensures a.Valid() && !a.neg && a.Mag() <= old(a.Mag()) && a.Mag() % n.Mag() == old(a.Mag()) % n.Mag()
    ensures a.Clean() && |a.dp| > 0
  {
    ghost var m := a.Mag();
    var q := new MpInt();
    Div2d(a, p, q, a);
    DivMod(m, Pow2(p));
    Fold(m, n.Mag(), d.Mag(), Pow2(p), q.Mag(), a.Mag());
    var word := Multiply.AnyWord();
    Product.Mul(q, d, q, word);
    MagBounds(q);
    AddSub.SAdd(a, q, a);
  }

  /** mp_reduce_2k_l: a mod n; it terminates because every repetition subtracts n from a number that did not grow. */
  method Reduce2kL(a: MpInt, n: MpInt, d: MpInt)
    requires a.Valid() && !a.neg && d.Valid() && !d.neg && n.Valid() && a != d && a != n
    requires n.Mag() > 0 && d.Mag() == Pow2(BitCount(n.Mag())) - n.Mag()
    modifies a
    ensures a.Valid() && !a.neg && ZeroReads(a) && a.Mag() == old(a.Mag()) % n.Mag()
  {
    MagBounds(n);
    ghost var m, nm := a.Mag(), n.Mag();
    var p := CountBits(n);
    BitCountIs(n.Mag(), p);
    var again := true;
    while again
      invariant a.Valid() && !a.neg && a.Mag() % nm == m % nm && (!again ==> ZeroReads(a) && a.Mag() < nm)
      decreases again, a.Mag()
    {
      FoldOnce(a, n, d, p);
      var r := CmpMag(a, n);
      again := r != -1;
      if again {
        ReduceTerm(a.Mag(), -1, nm);
        UsedMono(n, a);
        AddSub.SSub(a, n, a);
      }
    }
    DivUnique(a.Mag(), nm, 0, a.Mag());
  }

  // ----- the single-digit form

  /**
   mp_reduce_2k_setup keeps only the lowest digit of 2^p - a, which is the whole of it only when it fits a digit.
   */
  method Setup2k(a: MpInt) returns (d: nat)
    requires a.Valid() && a.Mag() > 0
    ensures d == (Pow2(BitCount(a.Mag())) - a.Mag()) % BASE && d + a.Mag() <= Pow2(BitCount(a.Mag()))
  {
    MagBounds(a);
    var tmp := new MpInt();
    var p := CountBits(a);
    BitCountIs(a.Mag(), p);
    TwoExpt(tmp, p);
    AddSub.SSub(tmp, a, tmp);
    MagBounds(tmp);
    Montgomery.OddDigit(tmp);
    d := tmp.dp[0];
    DivMod(tmp.Mag(), BASE);
  }

  /** The part above bit p, times d, folded back in, until the number is below n. */
  function Folded(a: nat, n: nat, d: nat, pw: nat): (r: nat)
    requires n > 0 && d + n <= pw
    ensures r < n
    decreases a
  {
    FoldShrinks(a, d, pw);
    var t: nat := a % pw + a / pw * d;
    if t < n then t else Folded(t - n, n, d, pw)
  }

  lemma FoldShrinks(a: nat, d: nat, pw: nat)
    requires pw > 0 && d <= pw
    ensures 0 <= a % pw && 0 <= a / pw && 0 <= a / pw * d && a % pw + a / pw * d <= a
  {
    DivMod(a, pw);
    if a / pw < 0 {
      MulMono(a / pw, -1, pw);
    }
    MulMono(d, pw, a / pw);
    MulMono(0, a / pw, d);
  }

  /** A number below 2^p only has n subtracted. */
  lemma {:induction false} FoldedBelow(a: nat, n: nat, d: nat, pw: nat)
    requires n > 0 && d + n <= pw && a < pw
    ensures Folded(a, n, d, pw) == a % n
    decreases a
  {
    DivUnique(a, pw, 0, a);
    MulZero(d);
    if a < n {
      DivUnique(a, n, 0, a);
    } else {
      FoldedBelow(a - n, n, d, pw);
      ReduceTerm(a, -1, n);
    }
  }

  /** 2^p itself is sent to d. */
  lemma FoldedPower(n: nat, d: nat, pw: nat)
    requires n > 0 && d + n <= pw
    ensures Folded(pw, n, d, pw) == d % n
  {
    DivUnique(pw, pw, 1, 0);
    if d < n {
      DivUnique(d, n, 0, d);
    } else {
      FoldedBelow(d - n, n, d, pw);
      ReduceTerm(d, -1, n);
    }
  }

  lemma FoldCongruent(a: int, n: nat, d: nat, pw: nat, q: int, l: int, t: int)
    requires n > 0 && pw % n == d % n && a == q * pw + l && t == l + q * d
    ensures t % n == a % n
  {
    ScaleCongruence(pw, d, n, q);
    AddCongruence(q * pw, q * d, l, n);
  }

  lemma {:induction false} FoldedResidue(a: nat, n: nat, d: nat, pw: nat)
    requires n > 0 && d + n <= pw && pw % n == d % n
    ensures Folded(a, n, d, pw) == a % n
    decreases a
  {
    FoldShrinks(a, d, pw);
    var t: nat := a % pw + a / pw * d;
    DivMod(a, pw);
    FoldCongruent(a, n, d, pw, a / pw, a % pw, t);
    if t < n {
      DivUnique(t, n, 0, t);
    } else {
      FoldedResidue(t - n, n, d, pw);
      ReduceTerm(t, -1, n);
    }
  }

  /** Folding gives the residue of every number exactly when 2^p and d agree modulo n. */
  lemma FoldedIsResidue(n: nat, d: nat, pw: nat)
    requires n > 0 && d + n <= pw
    ensures (forall a: nat :: Folded(a, n, d, pw) == a % n) <==> pw % n == d % n
  {
    FoldedPower(n, d, pw);
    if pw % n == d % n {
      forall a: nat ensures Folded(a, n, d, pw) == a % n {
        FoldedResidue(a, n, d, pw);
      }
    }
  }

  /** "q = a/2**p, a = a mod 2**p", "q = q * d" unless d is one, "a = a + q" */
  method FoldByDigit(a: MpInt, d: nat, p: nat)
    requires a.Valid() && !a.neg && d < BASE && d <= Pow2(p) && p > 0
    modifies a
    ensures a.Valid() && !a.neg && a.Mag() == old(a.Mag()) % Pow2(p) + old(a.Mag()) / Pow2(p) * d <= old(a.Mag())
    ensures a.Clean() && |a.dp| > 0
  {
    ghost var m := a.Mag();
    var q := new MpInt();
    Div2d(a, p, q, a);
    FoldShrinks(m, d, Pow2(p));
    if d != 1 {
      SingleDigit.MulD(q, d, q);
    }
    AddSub.SAdd(a, q, a);
  }

  /** mp_reduce_2k: the number is folded, whether d is right for the modulus or not. */
  method Reduce2k(a: MpInt, n: MpInt, d: nat)
    requires a.Valid() && !a.neg && n.Valid() && a != n && n.Mag() > 0 && d < BASE
    requires d + n.Mag() <= Pow2(BitCount(n.Mag()))
    modifies a
    ensures a.Valid() && !a.neg && ZeroReads(a)
    ensures a.Mag() == Folded(old(a.Mag()), n.Mag(), d, Pow2(BitCount(n.Mag())))
  {
    MagBounds(n);
    ghost var m, nm := a.Mag(), n.Mag();
    var p := CountBits(n);
    BitCountIs(nm, p);
    var again := true;
    while again
      invariant a.Valid() && !a.neg && (!again ==> ZeroReads(a))
      invariant if again then Folded(a.Mag(), nm, d, Pow2(p)) == Folded(m, nm, d, Pow2(p))
                else a.Mag() == Folded(m, nm, d, Pow2(p))
      decreases again, a.Mag()
    {
      FoldByDigit(a, d, p);
      var r := CmpMag(a, n);
      again := r != -1;
      if again {
        UsedMono(n, a);
        AddSub.SSub(a, n, a);
      }
    }
  }

  /** The lowest digit is the whole of 2^p - n: mp_reduce_2k then works for n. */
  ghost predicate FitsDigit(n: nat)
    requires n > 0
  {
    var pw := Pow2(BitCount(n));
    pw % n == ((pw - n) % BASE) % n
  }

  /** When 2^p - n does fit a digit, all is well. */
  lemma SmallDistance(n: nat)
    requires n > 0 && Pow2(BitCount(n)) - n < BASE
    ensures FitsDigit(n)
  {
    BitCountBounds(n);
    Distance(Pow2(BitCount(n)), n);
  }

  lemma Distance(pw: nat, n: nat)
    requires 0 < n <= pw && pw - n < BASE
    ensures pw % n == ((pw - n) % BASE) % n
  {
    DivUnique(pw - n, BASE, 0, pw - n);
    ReduceTerm(pw, -1, n);
  }

  /**
   Two-digit moduli that mp_reduce_is_2k accepts although 2^p - n is BASE: the top digit is 2^j - 1 and the lowest digit
   is zero.  The setup keeps zero, and 2^p is not a multiple of n, so the reduction is wrong.
   */
  lemma DistanceIsBase(n: nat, j: nat)
    requires 2 <= j < DIGIT_BIT && n == (Pow2(j) - 1) * BASE
    ensures n > 0 && Pow2(BitCount(n)) - n == BASE && !FitsDigit(n)
  {
    Pow2Mono(2, j);
    Pow2Digit();
    Pow2Add(j, DIGIT_BIT);
    Pow2Add(j - 1, DIGIT_BIT);
    Distribute(Pow2(j), -1, BASE);
    BitCountIs(n, j + DIGIT_BIT);
    BaseApart(n);
  }

  lemma BaseApart(n: nat)
    requires n > BASE
    ensures (n + BASE) % n == BASE != ((n + BASE - n) % BASE) % n
  {
    DivUnique(n + BASE, n, 1, BASE);
    DivUnique(0, n, 0, 0);
  }
}
