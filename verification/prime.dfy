/** Trial division and the rounds of Miller-Rabin, HAC 4.24: a prime is never rejected. */
module Primality {
  import opened Arith
  import opened Radix
  import opened MpInts
  import Bits
  import opened DigitDivision
  import DigitAddition
  import opened Congruences
  import opened Fermat
  import opened PrimeEntries
  import opened PrimeTable
  import opened StrongTests
  import Squaring
  import Modulo
  import opened GreatestCommonDivisor
  import opened ModularPower
  import Exponentiation
  import DigitCounts
  import Inverse
  import Montgomery
  import PowerMachine
  import PowerLaws

  // ----- one round

  /** y is not a zero that reads as one. */
  ghost predicate ReadsRight(y: MpInt)
    reads y
  {
    y.used > 0 || (|y.dp| > 0 && y.dp[0] != 1)
  }

  /** mp_cmp_d (&y, 1) == MP_EQ; a zero whose lowest word was never written may read as one. */
  method EqualsOne(y: MpInt) returns (r: bool)
    requires y.Valid()
    ensures ReadsRight(y) ==> (r <==> y.Value() == 1)
    ensures y.Value() == 1 ==> r
  {
    MagBounds(y);
    var c := CmpD(y, 1);
    r := c == 0;
  }

  /** "mp_sqrmod (&y, a, &y)" */
  method SqrMod(y: MpInt, a: MpInt) returns (ok: bool)
    requires y.Valid() && a.Valid() && !a.neg && y != a
    modifies y
    ensures ok == (a.Mag() != 0) && y.Valid()
    ensures ok ==> !y.neg && y.Mag() == (old(y.Mag()) * old(y.Mag())) % a.Mag() && ZeroReads(y)
  {
    ghost var m: nat := y.Mag();
    MulMono(0, m, m);
    var t := new MpInt();
    Squaring.Sqr(y, t);
    ok := Modulo.Mod(t, a, y);
    MagBounds(a);
    MagBounds(y);
  }

  /** y is link j - 1 and not one, and no link before it is minus one. */
  ghost predicate Chasing(y: MpInt, n1: MpInt, a: nat, b: int, r: nat, s: nat, j: nat)
    reads y, n1
  {
    && y.Valid() && !y.neg && n1.Valid() && a > 1 && n1.Value() == a - 1 && Split(a, r, s)
    && 1 <= j <= (if s > 0 then s else 1) && Link(y.Mag(), a, b, r, j - 1) && y.Mag() != 1
    && !MinusOneBefore(a, b, r, j - 1)
  }

  /** The loop stops because y is minus one, or because there are no more links. */
  lemma ChaseEnds(y: nat, a: nat, b: int, r: nat, s: nat, j: nat)
    requires a > 1 && 1 <= j <= (if s > 0 then s else 1) && Link(y, a, b, r, j - 1) && !MinusOneBefore(a, b, r, j - 1)
    requires j > s - 1 || y == a - 1
    ensures MinusOneBefore(a, b, r, if s > 0 then s else 1) <==> y == a - 1
  {
    if y == a - 1 {
      assert Pow(b, Doubled(r, j - 1)) % a == a - 1;
    } else {
      MinusOneNext(a, b, r, j - 1, y);
    }
  }

  /** A link that becomes one ends the chase for good. */
  lemma OneIsTheEnd(y: nat, a: nat, b: int, r: nat, s: nat, j: nat)
    requires a > 1 && Split(a, r, s) && 1 <= j < s && Link(y, a, b, r, j - 1) && y != a - 1
    requires !MinusOneBefore(a, b, r, j - 1) && (y * y) % a == 1
    ensures !MinusOneBefore(a, b, r, s)
  {
    OddHasTwos(a, r, s);
    NextLink(y, a, b, r, j - 1);
    MinusOneNext(a, b, r, j - 1, y);
    NoneAfterOne(a, b, r, j, s);
  }

  /** "while j <= s-1 and y != n1": false is "composite".  It passes exactly when one of the links is minus one. */
  method SquaringLoop(y: MpInt, n1: MpInt, a: MpInt, s: nat, ghost b: int, ghost r: nat, ghost good: bool)
    returns (pass: bool)
    requires y.Valid() && n1.Valid() && a.Valid() && !a.neg && a.Mag() > 0 && y != a && y != n1
    requires good ==> Chasing(y, n1, a.Mag(), b, r, s, 1)
    modifies y
    ensures good ==> (pass <==> MinusOneBefore(a.Mag(), b, r, if s > 0 then s else 1))
  {
    ghost var m := a.Mag();
    var j: nat := 1;
    var c := Cmp(y, n1);
    while j <= s - 1 && c != 0
      invariant y.Valid() && n1.Valid() && a.Valid() && !a.neg && a.Mag() == m && j >= 1
      invariant good ==> Chasing(y, n1, m, b, r, s, j)
      invariant c == 0 <==> y.Value() == n1.Value()
    {
      ghost var v := y.Mag();
      var ok := SqrMod(y, a);
      var one := EqualsOne(y);
      if one {
        if good {
          OneIsTheEnd(v, m, b, r, s, j);
        }
        return false;
      }
      if good {
        NextLink(v, m, b, r, j - 1);
        MinusOneNext(m, b, r, j - 1, v);
      }
      j := j + 1;
      c := Cmp(y, n1);
    }
    if good {
      ChaseEnds(y.Mag(), m, b, r, s, j);
    }
    pass := c == 0;
  }

  /**
   The test of y = b^r: one or a - 1 passes, anything else has to become a - 1 by squaring.  Only a zero that reads as
   one passes without passing the strong test.
   */
  method ChainTest(y: MpInt, n1: MpInt, a: MpInt, s: nat, ghost b: int, ghost r: nat, ghost good: bool)
    returns (pass: bool)
    requires y.Valid() && !y.neg && n1.Valid() && a.Valid() && !a.neg && a.Mag() > 0 && y != a && y != n1
    requires good ==> a.Mag() > 1 && n1.Value() == a.Mag() - 1
    requires good ==> Split(a.Mag(), r, s) && Link(y.Mag(), a.Mag(), b, r, 0)
    modifies y
    ensures good && PassesWith(a.Mag(), b, r, s) ==> pass
    ensures old(y.Mag()) == 1 ==> pass
    ensures good && old(ReadsRight(y)) ==> (pass <==> PassesWith(a.Mag(), b, r, s))
  {
    ghost var m, v := a.Mag(), y.Mag();
    MagBounds(y);
    assert Doubled(r, 0) == r;
    var one := EqualsOne(y);
    var c := Cmp(y, n1);
    if good && c == 0 {
      ChaseEnds(v, m, b, r, s, 1);
    }
    if !one && c != 0 {
      pass := SquaringLoop(y, n1, a, s, b, r, good);
    } else {
      pass := true;
    }
  }

  /** "get n1 = a - 1", "set 2**s * r = n1" */
  method SplitPredecessor(a: MpInt) returns (n1: MpInt, r: MpInt, s: nat)
    requires a.Valid()
    ensures fresh(n1) && fresh(r) && n1 != r && n1.Valid() && r.Valid() && n1.Value() == a.Value() - 1
    ensures (a.Value() >= 1 ==> r.Value() >= 0) && (a.Value() == 1 ==> r.Mag() == 0)
    ensures a.Value() >= 2 ==> !r.neg && r.Mag() % 2 == 1 && Doubled(r.Mag(), s) == a.Value() - 1
  {
    n1 := new MpInt();
    Copy(a, n1);
    DigitAddition.SubD(n1, 1, n1);
    MagBounds(n1);
    r := new MpInt();
    Copy(n1, r);
    s := CntLsb(r);
    ghost var m := r.Mag();
    Bits.Div2d(r, s, r, null);
    MagBounds(r);
    DivMod(m, Pow2(s));
    DoubledIs(m / Pow2(s), s);
  }

  /**
   The power that a round takes with base b is not disturbed by unwritten words: they do not count, or those that the
   products of its run copy and count are zero.
   */
  ghost predicate RoundQuiet(a: MpInt, b: nat, ws: PowerMachine.Words)
    requires a.used <= |a.dp|
    reads a
  {
    RouteOf(a) == MontgomeryForm && a.Mag() > 0 ==>
      forall rho: nat :: PowerLaws.OddModulus(a.Mag(), rho) ==>
        Unheard(b, Inverse.OddPartOf(a.Mag() - 1), a.Mag(), rho, ws)
  }

  /** A modulus of at most 255 digits is quiet, and so is any modulus if all words are zero. */
  lemma ShortRoundQuiet(a: MpInt, b: nat, ws: PowerMachine.Words)
    requires a.Valid() && (a.used <= Montgomery.MAX_MODULUS || PowerMachine.Silent(ws))
    ensures RoundQuiet(a, b, ws)
  {
    if a.Mag() > 0 {
      DigitCounts.UsedIsNumDigits(a);
      forall rho: nat | PowerLaws.OddModulus(a.Mag(), rho)
        ensures Unheard(b, Inverse.OddPartOf(a.Mag() - 1), a.Mag(), rho, ws)
      {
        PowerLaws.ShortIsQuiet(b, Inverse.OddPartOf(a.Mag() - 1), a.Mag(), rho, ws);
      }
    }
  }

  /** Nor does it matter what the words are if no product of the run takes the comba branch. */
  lemma UncopiedRoundQuiet(a: MpInt, b: nat, ws: PowerMachine.Words)
    requires a.Valid() && a.Mag() > 0 && PowerMachine.DigitWords(ws)
    requires forall rho: nat :: PowerLaws.OddModulus(a.Mag(), rho) ==>
               PowerLaws.UncopiedPower(b, Inverse.OddPartOf(a.Mag() - 1), a.Mag(), rho)
    ensures RoundQuiet(a, b, ws)
  {
    forall rho: nat | PowerLaws.OddModulus(a.Mag(), rho)
      ensures Unheard(b, Inverse.OddPartOf(a.Mag() - 1), a.Mag(), rho, ws)
    {
      PowerLaws.UncopiedIsQuiet(b, Inverse.OddPartOf(a.Mag() - 1), a.Mag(), rho, ws);
    }
  }

  /** In a quiet round nothing disturbs the power, since a positive base starts right. */
  lemma RoundUndisturbed(a: MpInt, b: nat, r: nat, s: nat, rho: nat, ws: PowerMachine.Words)
    requires a.Valid() && a.Mag() > 1 && RoundQuiet(a, b, ws) && Split(a.Mag(), r, s)
    requires RouteOf(a) == MontgomeryForm ==> PowerLaws.OddModulus(a.Mag(), rho)
    ensures Undisturbed(RouteOf(a), b, r, a.Mag(), rho, ws)
  {
    PowerLaws.FirstIsRight(b, a.Mag());
    OddPartIs(r, s);
  }

  lemma PrimeNotBad(a: nat)
    requires IsPrime(a)
    ensures !BadModulus(a)
  {
    forall j: nat | 2 <= j < DIGIT_BIT ensures a != (Pow2(j) - 1) * BASE {
      Pow2Mono(2, j);
      assert Pow2(2) == 4;
      DivUnique((Pow2(j) - 1) * BASE, 2, (Pow2(j) - 1) * (BASE / 2), 0);
    }
  }

  /** The power of the round is what it should be. */
  ghost predicate RoundStands(a: MpInt, b: int, ws: PowerMachine.Words)
    reads a
    requires a.used <= |a.dp|
  {
    a.Value() > 1 && b > 1 && RoundQuiet(a, b, ws) && !BadModulus(a.Value())
  }

  /** y = b^r is zero on the one route that may leave its lowest word unwritten; only even moduli take it. */
  ghost predicate BlindZero(a: MpInt, b: int)
    reads a
    requires a.used <= |a.dp| && a.Value() > 0
  {
    RouteOf(a) == BarrettForm && Pow(b, a.Value() - 1) % a.Value() == 0
  }

  /** On the other routes, if y is not zero, or if no word is one, what is read as one is one. */
  lemma SeesZero(a: MpInt, b: int, r: nat, s: nat, y: MpInt, ws: PowerMachine.Words)
    requires a.Valid() && a.Value() > 1 && Split(a.Value(), r, s) && y.Valid() && Link(y.Mag(), a.Value(), b, r, 0)
    requires Exponentiation.LowAmong(y, ws) && (RouteOf(a) != BarrettForm ==> ZeroReads(y))
    ensures !BlindZero(a, b) || !PowerMachine.IsWord(ws, 1) ==> ReadsRight(y)
  {
    MagBounds(y);
    OddHasTwos(a.Value(), r, s);
    assert Doubled(r, 0) == r;
  }

  /** Modulo one, the power with exponent zero is one. */
  lemma ModuloOne(a: MpInt, b: int, rho: nat, ws: PowerMachine.Words)
    requires a.Valid() && a.Value() == 1
    ensures !BadModulus(a.Mag()) && Undisturbed(RouteOf(a), b, 0, a.Mag(), rho, ws)
    ensures RouteOf(a) != BarrettForm && PowerLaws.PowerModulo(b, 0, a.Mag()) == 1
  {
    OddNotBad(1);
    if !FullEnough(a) {
      SmallModulus(a);
    }
  }

  /** "get n1 = a - 1", "set 2**s * r = n1", "compute y = b**r mod a": the first link, if the power stands. */
  method FirstLink(a: MpInt, b: MpInt, ws: PowerMachine.Words)
    returns (ok: bool, n1: MpInt, s: nat, y: MpInt, ghost r: nat)
    requires a.Valid() && b.Valid()
    ensures ok == (a.Value() > 0)
    ensures fresh(n1) && fresh(y) && n1 != y && n1.Valid() && y.Valid() && n1.Value() == a.Value() - 1
    ensures ok ==> !y.neg && (a.Value() > 1 ==> Split(a.Value(), r, s)) && (a.Value() == 1 ==> y.Mag() == 1)
    ensures RoundStands(a, b.Value(), ws) ==> Link(y.Mag(), a.Value(), b.Value(), r, 0)
    ensures RoundStands(a, b.Value(), ws) && (!BlindZero(a, b.Value()) || !PowerMachine.IsWord(ws, 1)) ==> ReadsRight(y)
  {
    MagBounds(a);
    MagBounds(b);
    var odd;
    n1, odd, s := SplitPredecessor(a);
    r := odd.Mag();
    y := new MpInt();
    ghost var base, rho;
    ok, base, rho := Exptmod(b, odd, a, y, ws);
    if RoundStands(a, b.Value(), ws) {
      RoundUndisturbed(a, b.Value(), r, s, rho, ws);
      assert Doubled(r, 0) == r;
      SeesZero(a, b.Value(), r, s, y, ws);
    } else if a.Value() == 1 {
      ModuloOne(a, b.Value(), rho, ws);
    }
  }

  /** A prime passes, an odd number that passes satisfies Fermat's congruence. */
  lemma StrongTestFacts(a: nat, b: nat, r: nat, s: nat)
    requires a > 1 && Split(a, r, s)
    ensures StrongTest(a, b) <==> PassesWith(a, b, r, s)
    ensures IsPrime(a) && b % a != 0 ==> StrongTest(a, b) && !BadModulus(a)
    ensures StrongTest(a, b) && a % 2 == 1 ==> Pow(b, a - 1) % a == 1
  {
    TestedWith(a, b, r, s);
    if IsPrime(a) && b % a != 0 {
      PrimePasses(a, b, r, s);
      PrimeNotBad(a);
    }
    if StrongTest(a, b) && a % 2 == 1 {
      PassesIsFermat(a, b, r, s);
    }
  }

  /**
   mp_prime_miller_rabin.  Not ok is MP_VAL, for a base of at most one or a number that is not positive.  If no
   unwritten word disturbs the power and mp_exptmod does not get it wrong, the answer is that of the strong test, but
   for a zero that reads as one, which no odd number has, and no number at all if no unwritten word is one.  So a prime
   that does not divide the base passes, and an odd number that passes satisfies Fermat's congruence.  One passes, too.
   */
  method MillerRabin(a: MpInt, b: MpInt, ws: PowerMachine.Words) returns (ok: bool, result: bool)
    requires a.Valid() && b.Valid()
    ensures |b.dp| > 0 && Seen(b) <= 1 ==> !ok
    ensures b.Value() > 1 ==> ok == (a.Value() > 0)
    ensures RoundStands(a, b.Value(), ws) && StrongTest(a.Value(), b.Value()) ==> result
    ensures RoundStands(a, b.Value(), ws) && (!BlindZero(a, b.Value()) || !PowerMachine.IsWord(ws, 1)) ==>
              (result <==> StrongTest(a.Value(), b.Value()))
    ensures RoundStands(a, b.Value(), ws) && a.Value() % 2 == 1 && result ==>
              Pow(b.Value(), a.Value() - 1) % a.Value() == 1
    ensures IsPrime(a.Value()) && b.Value() > 1 && b.Value() % a.Value() != 0 && RoundQuiet(a, b.Mag(), ws) ==>
              ok && result
    ensures a.Value() == 1 && b.Value() > 1 ==> result
  {
    MagBounds(a);
    MagBounds(b);
    var c := CmpD(b, 1);
    if c != 1 {
      return false, false;
    }
    var n1, s, y;
    ghost var r;
    ok, n1, s, y, r := FirstLink(a, b, ws);
    if !ok {
      return false, false;
    }
    ghost var good := RoundStands(a, b.Value(), ws);
    if a.Value() > 1 {
      StrongTestFacts(a.Value(), b.Value(), r, s);
    }
    result := ChainTest(y, n1, a, s, b.Value(), r, good);
  }

  // ----- trial division

  ghost predicate TableDivides(a: nat, tab: seq<nat>)
    requires FirstPrimes(tab)
  {
    exists i :: 0 <= i < |tab| && a % tab[i] == 0
  }

  lemma TableDividesIff(a: nat, tab: seq<nat>)
    requires FirstPrimes(tab)
    ensures TableDivides(a, tab) <==> SmallPrimeDivides(a)
  {
    if TableDivides(a, tab) {
      var i :| 0 <= i < |tab| && a % tab[i] == 0;
      assert SmallPrime(tab[i]);
    }
    if SmallPrimeDivides(a) {
      var p: nat :| SmallPrime(p) && a % p == 0;
      var i :| 0 <= i < |tab| && tab[i] == p;
      assert a % tab[i] == 0;
    }
  }

  /** mp_prime_is_divisible */
  method IsDivisible(a: MpInt, tab: seq<nat>) returns (yes: bool)
    requires a.Valid() && FirstPrimes(tab)
    ensures yes <==> SmallPrimeDivides(a.Mag())
  {
    TableDividesIff(a.Mag(), tab);
    var ix := 0;
    while ix < PRIME_SIZE
      invariant ix <= PRIME_SIZE && forall i :: 0 <= i < ix ==> a.Mag() % tab[i] != 0
    {
      var ok, res := DivD(a, tab[ix], null);
      if res == 0 {
        return true;
      }
      ix := ix + 1;
    }
    return false;
  }

  /** "is the input equal to one of the primes in the table?" */
  method EqualsEntry(a: MpInt, tab: seq<nat>) returns (yes: bool)
    requires a.Valid() && FirstPrimes(tab)
    ensures ZeroReads(a) ==> (yes <==> SmallPrime(a.Value()))
  {
    var ix := 0;
    while ix < PRIME_SIZE
      invariant ix <= PRIME_SIZE && (ZeroReads(a) ==> forall i :: 0 <= i < ix ==> a.Value() != tab[i])
    {
      var c := CmpD(a, tab[ix]);
      if c == 0 {
        return true;
      }
      ix := ix + 1;
    }
    return false;
  }

  // ----- the rounds

  /** "set the prime" and one round with it as the base. */
  method OneRound(a: MpInt, p: nat, ws: PowerMachine.Words) returns (ok: bool, result: bool)
    requires a.Valid() && 1 < p < BASE
    ensures ok == (a.Value() > 0)
    ensures a.Value() > 1 && a.Value() % 2 == 1 && RoundQuiet(a, p, ws) ==> (result <==> StrongTest(a.Value(), p))
    ensures a.Value() == 1 ==> result
  {
    var b := SetPrime(p);
    MagBounds(a);
    if a.Value() > 1 && a.Value() % 2 == 1 {
      OddNotBad(a.Value());
      NotBlind(a, p);
    }
    ok, result := MillerRabin(a, b, ws);
  }

  lemma NotBlind(a: MpInt, b: int)
    requires a.Valid() && a.Value() > 1 && a.Value() % 2 == 1
    ensures !BlindZero(a, b)
  {
  }

  method SetPrime(p: nat) returns (b: MpInt)
    requires 1 < p < BASE
    ensures fresh(b) && b.Valid() && b.Value() == b.Mag() == p
  {
    b := new MpInt();
    b.Set(p);
    MagBounds(b);
  }

  /** The first t entries with their words make quiet rounds. */
  ghost predicate AllRoundsQuiet(a: MpInt, t: nat, tab: seq<nat>, words: nat -> PowerMachine.Words)
    requires a.used <= |a.dp| && t <= |tab|
    reads a
  {
    forall i :: 0 <= i < t ==> RoundQuiet(a, tab[i], words(i))
  }

  ghost predicate AllPassed(a: nat, t: nat, tab: seq<nat>)
    requires t <= |tab|
  {
    forall i :: 0 <= i < t ==> StrongTest(a, tab[i])
  }

  /** "now perform the miller-rabin rounds", with the first t table entries as bases. */
  method Rounds(a: MpInt, t: nat, tab: seq<nat>, words: nat -> PowerMachine.Words) returns (ok: bool, result: bool)
    requires a.Valid() && FirstPrimes(tab) && 0 < t <= PRIME_SIZE
    ensures ok == (a.Value() > 0)
    ensures a.Value() > 1 && a.Value() % 2 == 1 && AllRoundsQuiet(a, t, tab, words) ==>
              (result <==> AllPassed(a.Value(), t, tab))
    ensures a.Value() == 1 ==> result
  {
    ghost var good := a.Value() > 1 && a.Value() % 2 == 1 && AllRoundsQuiet(a, t, tab, words);
    var ix := 0;
    while ix < t
      invariant ix <= t && a.Valid() && (ix > 0 ==> a.Value() > 0)
      invariant good ==> AllPassed(a.Value(), ix, tab)
    {
      var res;
      ok, res := RoundAt(a, t, tab, words, ix);
      if !ok || !res {
        return ok, false;
      }
      ix := ix + 1;
    }
    return true, true;
  }

  /** The body of that loop. */
  method RoundAt(a: MpInt, t: nat, tab: seq<nat>, words: nat -> PowerMachine.Words, ix: nat)
    returns (ok: bool, res: bool)
    requires a.Valid() && FirstPrimes(tab) && ix < t <= PRIME_SIZE
    ensures ok == (a.Value() > 0) && (a.Value() == 1 ==> res)
    ensures a.Value() > 1 && a.Value() % 2 == 1 && AllRoundsQuiet(a, t, tab, words) && AllPassed(a.Value(), ix, tab) ==>
              if res then AllPassed(a.Value(), ix + 1, tab) else !AllPassed(a.Value(), t, tab)
  {
    EntryFits(tab, ix);
    ok, res := OneRound(a, tab[ix], words(ix));
    if AllRoundsQuiet(a, t, tab, words) {
      QuietAt(a, t, tab, words, ix);
    }
    if a.Value() > 1 && AllPassed(a.Value(), ix, tab) {
      NextPassed(a.Value(), t, tab, ix);
    }
  }

  lemma QuietAt(a: MpInt, t: nat, tab: seq<nat>, words: nat -> PowerMachine.Words, ix: nat)
    requires a.used <= |a.dp| && ix < t <= |tab| && AllRoundsQuiet(a, t, tab, words)
    ensures RoundQuiet(a, tab[ix], words(ix))
  {
  }

  lemma EntryFits(tab: seq<nat>, ix: nat)
    requires FirstPrimes(tab) && ix < PRIME_SIZE
    ensures 1 < tab[ix] < BASE
  {
  }

  lemma NextPassed(a: nat, t: nat, tab: seq<nat>, ix: nat)
    requires ix < t <= |tab| && AllPassed(a, ix, tab)
    ensures if StrongTest(a, tab[ix]) then AllPassed(a, ix + 1, tab) else !AllPassed(a, t, tab)
  {
  }

  // ----- the whole test

  /** a passes the strong test for the first t primes. */
  ghost predicate PassesRounds(a: nat, t: nat) {
    forall p: nat :: IsPrime(p) && PrimesBelow(p) < t ==> StrongTest(a, p)
  }

  /** The rounds for the first t primes are quiet, or no word can matter. */
  ghost predicate QuietRounds(a: MpInt, t: nat, words: nat -> PowerMachine.Words)
    requires a.used <= |a.dp|
    reads a
  {
    a.used <= Montgomery.MAX_MODULUS ||
    forall p: nat :: IsPrime(p) && PrimesBelow(p) < t ==> RoundQuiet(a, p, words(PrimesBelow(p)))
  }

  lemma PassedIff(a: nat, t: nat, tab: seq<nat>)
    requires FirstPrimes(tab) && t <= PRIME_SIZE
    ensures AllPassed(a, t, tab) <==> PassesRounds(a, t)
  {
    if AllPassed(a, t, tab) {
      forall p: nat | IsPrime(p) && PrimesBelow(p) < t ensures StrongTest(a, p) {
        PlaceOfPrime(tab, p);
      }
    } else if PassesRounds(a, t) {
      forall i | 0 <= i < t ensures StrongTest(a, tab[i]) {
        assert IsPrime(tab[i]) && PrimesBelow(tab[i]) < t;
      }
    }
  }

  lemma QuietInTable(a: MpInt, t: nat, tab: seq<nat>, words: nat -> PowerMachine.Words)
    requires a.Valid() && FirstPrimes(tab) && t <= PRIME_SIZE && QuietRounds(a, t, words)
    ensures AllRoundsQuiet(a, t, tab, words)
  {
    forall i | 0 <= i < t ensures RoundQuiet(a, tab[i], words(i)) {
      if a.used <= Montgomery.MAX_MODULUS {
        ShortRoundQuiet(a, tab[i], words(i));
      } else {
        assert IsPrime(tab[i]) && PrimesBelow(tab[i]) == i;
      }
    }
  }

  /** A prime above 1619 passes all rounds. */
  lemma PrimePassesRounds(a: nat, t: nat)
    requires IsPrime(a) && a > 1619 && t <= PRIME_SIZE
    ensures PassesRounds(a, t)
  {
    var r, s := SplitOf(a - 1);
    forall p: nat | IsPrime(p) && PrimesBelow(p) < t ensures StrongTest(a, p) {
      BelowTheTable(p);
      LargerPrime(a, p);
      PrimePasses(a, p, r, s);
    }
  }

  lemma {:induction false} SplitOf(m: nat) returns (r: nat, s: nat)
    requires m > 0
    ensures r % 2 == 1 && Doubled(r, s) == m
  {
    r, s := m, 0;
    if m % 2 == 0 {
      r, s := SplitOf(m / 2);
      s := s + 1;
    }
  }

  /** A prime with fewer than 256 smaller ones is at most 1619. */
  lemma BelowTheTable(p: nat)
    requires IsPrime(p) && PrimesBelow(p) < PRIME_SIZE
    ensures p <= 1619
  {
    if p > 1619 {
      LastEntry();
      EntryIsNthPrime(255);
      PrimesBelowGrows(1619, p);
    }
  }

  /** Every number above one without a small prime divisor is odd. */
  lemma OddWithoutSmall(a: nat)
    requires !SmallPrimeDivides(a)
    ensures a % 2 == 1
  {
    assert SmallPrime(2);
  }

  /** What the rounds find out once trial division has not found a divisor. */
  lemma Undivided(a: MpInt, t: nat, tab: seq<nat>, words: nat -> PowerMachine.Words)
    requires a.Valid() && a.Value() > 1 && FirstPrimes(tab) && t <= PRIME_SIZE && !SmallPrimeDivides(a.Mag())
    ensures a.Value() % 2 == 1 && (QuietRounds(a, t, words) ==> AllRoundsQuiet(a, t, tab, words))
    ensures AllPassed(a.Value(), t, tab) <==> PassesRounds(a.Value(), t)
    ensures IsPrime(a.Value()) ==> PassesRounds(a.Value(), t)
    ensures a.Value() < 1621 * 1621 ==> IsPrime(a.Value()) && QuietRounds(a, t, words)
  {
    var v := a.Value();
    OddWithoutSmall(v);
    PassedIff(v, t, tab);
    if QuietRounds(a, t, words) {
      QuietInTable(a, t, tab, words);
    }
    if v < 1621 * 1621 {
      PrimeOrSmallDivisor(v);
      assert W(1) == BASE * W(0);
      UsedBelow(a, 1);
    }
    if IsPrime(v) {
      if v <= 1619 {
        SmallPrimeFacts(v);
        assert false;
      }
      PrimePassesRounds(v, t);
    }
  }

  /** The rounds, once trial division has not found a divisor. */
  method AfterTrialDivision(a: MpInt, t: nat, tab: seq<nat>, words: nat -> PowerMachine.Words)
    returns (ok: bool, result: bool)
    requires a.Valid() && FirstPrimes(tab) && 0 < t <= PRIME_SIZE && !SmallPrimeDivides(a.Mag())
    ensures ok == (a.Value() > 0)
    ensures a.Value() > 1 && QuietRounds(a, t, words) ==> (result <==> PassesRounds(a.Value(), t))
    ensures IsPrime(a.Value()) && QuietRounds(a, t, words) ==> result
    ensures 1 < a.Value() < 1621 * 1621 ==> result && IsPrime(a.Value())
    ensures a.Value() == 1 ==> result
  {
    if a.Value() > 1 {
      Undivided(a, t, tab, words);
    }
    ok, result := Rounds(a, t, tab, words);
  }

  /**
   mp_prime_is_prime, for every number.  The primes up to 1619 are accepted and all other multiples of them rejected;
   any other number above one is accepted exactly when it passes the strong test for the first t primes, if no
   unwritten word counts in the rounds.  So every prime is accepted, and below 1621 squared nothing else is.  One is
   accepted, too.  Not ok is MP_VAL, for a number of rounds out of range or a negative number without a small prime
   divisor.
   */
  method PrimeIsPrime(a: MpInt, t: int, words: nat -> PowerMachine.Words) returns (ok: bool, result: bool)
    requires a.Valid()
    ensures !(1 <= t <= PRIME_SIZE) ==> !ok
    ensures 1 <= t <= PRIME_SIZE && SmallPrime(a.Value()) ==> ok && result
    ensures 1 <= t <= PRIME_SIZE && ZeroReads(a) && SmallPrimeDivides(a.Mag()) && !SmallPrime(a.Value()) ==>
              ok && !result
    ensures 1 <= t <= PRIME_SIZE && a.Value() > 1 && !SmallPrimeDivides(a.Mag()) && QuietRounds(a, t, words) ==>
              ok && (result <==> PassesRounds(a.Value(), t))
    ensures 1 <= t <= PRIME_SIZE && IsPrime(a.Value()) && QuietRounds(a, t, words) ==> ok && result
    ensures 1 <= t <= PRIME_SIZE && 1 < a.Value() < 1621 * 1621 ==> ok && (result <==> IsPrime(a.Value()))
    ensures 1 <= t <= PRIME_SIZE && a.Value() == 1 ==> ok && result
    ensures 1 <= t <= PRIME_SIZE && a.Value() < 0 && !SmallPrimeDivides(a.Mag()) ==> !ok
  {
    if t <= 0 || t > PRIME_SIZE {
      return false, false;
    }
    MagBounds(a);
    var tab := LoadTable();
    var listed := EqualsEntry(a, tab);
    if listed {
      if a.used > 0 {
        SmallPrimeFacts(a.Value());
      }
      return true, true;
    }
    var divisible := IsDivisible(a, tab);
    if divisible {
      DividedFacts(a.Value());
      return true, false;
    }
    ok, result := AfterTrialDivision(a, t, tab, words);
  }
}
