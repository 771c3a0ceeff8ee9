/** The strong probable-prime test of HAC 4.24, as a fact about two numbers. */
module StrongTests {
  import opened Arith
  import opened Congruences
  import opened Fermat
  import Inverse
  import opened GreatestCommonDivisor

  /** One of the first n links b^r, b^2r, b^4r, ... is minus one modulo a. */
  ghost predicate MinusOneBefore(a: nat, b: int, r: nat, n: nat)
    requires a > 0
  {
    exists j: nat :: j < n && Pow(b, Doubled(r, j)) % a == a - 1
  }

  /** The test, for a - 1 = 2^s * r: b^r is one, or one of the links up to b^(2^(s-1) * r) is minus one. */
  ghost predicate PassesWith(a: nat, b: int, r: nat, s: nat)
    requires a > 0
  {
    Pow(b, r) % a == 1 || MinusOneBefore(a, b, r, if s > 0 then s else 1)
  }

  /** r and s split a - 1 into its odd part and its twos. */
  predicate Split(a: nat, r: nat, s: nat) {
    r % 2 == 1 && Doubled(r, s) == a - 1
  }

  /** a is a strong probable prime for the base b. */
  ghost predicate StrongTest(a: nat, b: int) {
    a > 0 && exists r: nat, s: nat :: Split(a, r, s) && PassesWith(a, b, r, s)
  }

  // ----- there is only one split

  lemma HalfOfDouble(m: nat, d: nat)
    requires m == 2 * d
    ensures m % 2 == 0 && m / 2 == d
  {
  }

  lemma {:induction false} OddPartIs(r: nat, s: nat)
    requires r % 2 == 1
    ensures Inverse.OddPartOf(Doubled(r, s)) == r && Doubled(r, s) > 0
  {
    if s > 0 {
      OddPartIs(r, s - 1);
      HalfOfDouble(Doubled(r, s), Doubled(r, s - 1));
    }
  }

  lemma {:induction false} SameTwos(r: nat, s: nat, s': nat)
    requires r > 0 && Doubled(r, s) == Doubled(r, s')
    ensures s == s'
    decreases s
  {
    if s > 0 && s' > 0 {
      SameTwos(r, s - 1, s' - 1);
    } else if s > 0 {
      DoubledGrows(r, s);
    } else if s' > 0 {
      DoubledGrows(r, s');
    }
  }

  lemma {:induction false} DoubledGrows(r: nat, s: nat)
    requires r > 0 && s > 0
    ensures Doubled(r, s) > r
  {
    if s > 1 {
      DoubledGrows(r, s - 1);
    }
  }

  /** So the test may be made with any split. */
  lemma TestedWith(a: nat, b: int, r: nat, s: nat)
    requires a > 0 && Split(a, r, s)
    ensures StrongTest(a, b) <==> PassesWith(a, b, r, s)
  {
    if StrongTest(a, b) {
      var r': nat, s': nat :| Split(a, r', s') && PassesWith(a, b, r', s');
      OddPartIs(r, s);
      OddPartIs(r', s');
      SameTwos(r, s, s');
    }
  }

  // ----- the links

  /** y is link j. */
  ghost predicate Link(y: nat, a: nat, b: int, r: nat, j: nat)
    requires a > 0
  {
    y == Pow(b, Doubled(r, j)) % a
  }

  lemma LinkValue(a: nat, b: int, r: nat, j: nat) returns (y: nat)
    requires a > 0
    ensures y < a && Link(y, a, b, r, j)
  {
    DivMod(Pow(b, Doubled(r, j)), a);
    y := Pow(b, Doubled(r, j)) % a;
  }

  lemma NextLink(y: nat, a: nat, b: int, r: nat, j: nat)
    requires a > 0 && Link(y, a, b, r, j)
    ensures (y * y) % a >= 0 && Link((y * y) % a, a, b, r, j + 1)
  {
    var c, d := Pow(b, Doubled(r, j)), Pow(b, Doubled(r, j + 1));
    DivMod(y * y, a);
    RemainderIs(c, a);
    ProductCongruence(y, c, y, c, a);
    PowAdd(b, Doubled(r, j), Doubled(r, j));
    assert d == c * c;
  }

  /** From a link that is one or minus one, all further ones are one. */
  lemma {:induction false} OnesFrom(a: nat, b: int, r: nat, j: nat, k: nat)
    requires a > 1 && j < k && (Link(1, a, b, r, j) || Link(a - 1, a, b, r, j))
    ensures Link(1, a, b, r, k)
    decreases k
  {
    var y := LinkValue(a, b, r, k - 1);
    if j < k - 1 {
      OnesFrom(a, b, r, j, k - 1);
    }
    NextLink(y, a, b, r, k - 1);
    SquareOfUnit(y, a);
  }

  lemma SquareOfUnit(y: nat, a: nat)
    requires a > 1 && (y == 1 || y == a - 1)
    ensures (y * y) % a == 1
  {
    if y == 1 {
      DivUnique(1, a, 0, 1);
    } else {
      assert y * y == (a - 2) * a + 1;
      DivUnique(y * y, a, a - 2, 1);
    }
  }

  /** After a link that is one, none is minus one; then the first n links hold none if the first j do not. */
  lemma NoneAfterOne(a: nat, b: int, r: nat, j: nat, n: nat)
    requires a > 2 && Link(1, a, b, r, j) && !MinusOneBefore(a, b, r, j)
    ensures !MinusOneBefore(a, b, r, n)
  {
    forall k: nat | k < n ensures Pow(b, Doubled(r, k)) % a != a - 1 {
      if k > j {
        OnesFrom(a, b, r, j, k);
      }
    }
  }

  lemma MinusOneNext(a: nat, b: int, r: nat, j: nat, y: nat)
    requires a > 0 && Link(y, a, b, r, j) && y != a - 1 && !MinusOneBefore(a, b, r, j)
    ensures !MinusOneBefore(a, b, r, j + 1)
  {
  }

  // ----- primes pass, and what passes satisfies Fermat's congruence

  /** Before a link that is one there is a first one, or a link that is minus one. */
  lemma {:induction false} UnitBefore(a: nat, b: int, r: nat, j: nat)
    requires IsPrime(a) && Link(1, a, b, r, j)
    ensures Link(1, a, b, r, 0) || MinusOneBefore(a, b, r, j)
  {
    if j > 0 {
      var y := LinkValue(a, b, r, j - 1);
      NextLink(y, a, b, r, j - 1);
      RootsOfOne(y, a);
      if y == 1 {
        UnitBefore(a, b, r, j - 1);
        if MinusOneBefore(a, b, r, j - 1) {
          var i: nat :| i < j - 1 && Pow(b, Doubled(r, i)) % a == a - 1;
          assert i < j;
        }
      }
    }
  }

  /** A prime passes for every base that it does not divide. */
  lemma PrimePasses(a: nat, b: nat, r: nat, s: nat)
    requires IsPrime(a) && b % a != 0 && Split(a, r, s)
    ensures StrongTest(a, b)
  {
    LittleFermat(b, a);
    UnitBefore(a, b, r, s);
    TestedWith(a, b, r, s);
  }

  lemma OddHasTwos(a: nat, r: nat, s: nat)
    requires Split(a, r, s)
    ensures a % 2 == 1 <==> s > 0
  {
    if s > 0 {
      HalfOfDouble(Doubled(r, s), Doubled(r, s - 1));
    }
  }

  /** An odd number that passes satisfies Fermat's congruence. */
  lemma PassesIsFermat(a: nat, b: int, r: nat, s: nat)
    requires a > 1 && a % 2 == 1 && Split(a, r, s) && PassesWith(a, b, r, s)
    ensures Pow(b, a - 1) % a == 1
  {
    OddHasTwos(a, r, s);
    if Pow(b, r) % a == 1 {
      OnesFrom(a, b, r, 0, s);
    } else {
      var j: nat :| j < s && Pow(b, Doubled(r, j)) % a == a - 1;
      OnesFrom(a, b, r, j, s);
    }
  }

  /** An even number passes exactly when b^(a-1) is one or minus one; minus one is not what Fermat's congruence asks. */
  lemma EvenPasses(a: nat, b: int)
    requires a > 0 && a % 2 == 0
    ensures StrongTest(a, b) <==> Pow(b, a - 1) % a == 1 || Pow(b, a - 1) % a == a - 1
  {
    assert Split(a, a - 1, 0);
    TestedWith(a, b, a - 1, 0);
    if Pow(b, a - 1) % a == a - 1 {
      assert Doubled(a - 1, 0) == a - 1;
    }
  }

  /** Every even number passes for the base a - 1, and above two Fermat's congruence does not hold for it. */
  lemma EvenImpostor(a: nat)
    requires a > 2 && a % 2 == 0
    ensures StrongTest(a, a - 1) && Pow(a - 1, a - 1) % a == a - 1 != 1
  {
    MinusOnePower(a, a - 1);
    EvenPasses(a, a - 1);
  }

  lemma {:induction false} MinusOnePower(a: nat, e: nat)
    requires a > 1
    ensures Pow(a - 1, e) % a == if e % 2 == 0 then 1 else a - 1
  {
    if e == 0 {
      DivUnique(1, a, 0, 1);
    } else {
      MinusOnePower(a, e - 1);
      var y := if (e - 1) % 2 == 0 then 1 else a - 1;
      DivUnique(y, a, 0, y);
      ProductCongruence(a - 1, a - 1, Pow(a - 1, e - 1), y, a);
      if y == 1 {
        DivUnique(a - 1, a, 0, a - 1);
      } else {
        SquareOfUnit(a - 1, a);
      }
    }
  }
}
