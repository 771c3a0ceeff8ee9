/** Modular inverses by the binary extended Euclidean algorithm, HAC 14.61, and the shorter form for odd moduli. */
module Inverse {
  import opened Arith
  import opened Radix
  import opened MpInts
  import AddSub
  import opened Congruences
  import Montgomery
  import Product
  import ToomThree
  import Modulo
  import opened Divisors

  // ----- parity

  lemma ParityOf(a: MpInt)
    requires a.Valid()
    ensures a.Value() % 2 == a.Mag() % 2
    ensures a.used > 0 ==> a.Mag() % 2 == a.dp[0] % 2
    ensures a.used == 0 <==> a.Value() == 0
    ensures a.neg <==> a.Value() < 0
  {
    MagBounds(a);
    if a.used > 0 {
      Montgomery.OddDigit(a);
    }
  }

  /** mp_iseven: zero does not count as even. */
  method IsEven(a: MpInt) returns (r: bool)
    requires a.Valid()
    ensures r <==> a.Value() != 0 && a.Value() % 2 == 0
  {
    ParityOf(a);
    r := a.used > 0 && a.dp[0] % 2 == 0;
  }

  /** mp_isodd */
  method IsOdd(a: MpInt) returns (r: bool)
    requires a.Valid()
    ensures r <==> a.Value() % 2 == 1
  {
    ParityOf(a);
    r := a.used > 0 && a.dp[0] % 2 == 1;
  }

  /** mp_div_2 in place, on a number that is even or may be rounded. */
  method Halve(a: MpInt)
    requires a.Valid()
    modifies a
    ensures a.Valid() && (old(a.Value()) % 2 == 0 ==> old(a.Value()) == 2 * a.Value())
    ensures old(a.Value()) >= 0 ==> a.Value() >= 0
  {
    ghost var v := a.Value();
    if v % 2 == 0 {
      ToomThree.HalfIs(v, v / 2);
    }
    Product.HalveInPlace(a);
  }

  /** m without its factors of two. */
  function OddPartOf(m: nat): nat {
    if m > 0 && m % 2 == 0 then OddPartOf(m / 2) else m
  }

  lemma {:induction false} OddPartIsOdd(m: nat)
    ensures OddPartOf(m) <= m && (m > 0 ==> OddPartOf(m) > 0 && OddPartOf(m) % 2 == 1)
    ensures OddPartOf(OddPartOf(m)) == OddPartOf(m)
  {
    if m > 0 && m % 2 == 0 {
      OddPartIsOdd(m / 2);
    }
  }

  // ----- the slow form: any modulus

  /** A * x + B * y == u */
  ghost predicate Combination(a: int, b: int, u: int, x: int, y: int) {
    a * x + b * y == u
  }

  /** When u is even and x, y are not both even, A and B can be made even without changing the combination. */
  lemma EvenCombination(a: int, b: int, u: int, x: int, y: int, a': int, b': int)
    requires Combination(a, b, u, x, y) && u % 2 == 0 && (x % 2 == 1 || y % 2 == 1)
    requires if a % 2 == 1 || b % 2 == 1 then a' == a + y && b' == b - x else a' == a && b' == b
    ensures a' % 2 == 0 && b' % 2 == 0 && Combination(a', b', u, x, y)
  {
    ExchangeTerms(a, b, x, y);
    ParityProduct(a, x);
    ParityProduct(b, y);
    EvenSum(a * x, b * y, u);
    ParityCases(a, b, x, y);
  }

  lemma ParityCases(a: int, b: int, x: int, y: int)
    requires (a % 2 == 1 && x % 2 == 1) == (b % 2 == 1 && y % 2 == 1) && (x % 2 == 1 || y % 2 == 1)
    ensures a % 2 == 1 || b % 2 == 1 ==> (a + y) % 2 == 0 && (b - x) % 2 == 0
  {
  }

  lemma ExchangeTerms(a: int, b: int, x: int, y: int)
    ensures (a + y) * x + (b - x) * y == a * x + b * y
  {
  }

  lemma EvenSum(p: int, q: int, u: int)
    requires p + q == u && u % 2 == 0
    ensures p % 2 == q % 2
  {
  }

  lemma ParityProduct(x: int, y: int)
    ensures (x * y) % 2 == if x % 2 == 1 && y % 2 == 1 then 1 else 0
  {
    ProductCongruence(x, x % 2, y, y % 2, 2);
    if x % 2 == 0 {
      MulZero(y % 2);
    } else if y % 2 == 0 {
      MulZero(x % 2);
    }
  }

  lemma HalfCombination(a: int, b: int, u: int, x: int, y: int, a': int, b': int, u': int)
    requires Combination(a, b, u, x, y) && a == 2 * a' && b == 2 * b' && u == 2 * u'
    ensures Combination(a', b', u', x, y)
  {
    assert (2 * a') * x + (2 * b') * y == 2 * (a' * x + b' * y);
  }

  lemma SubtractCombination(a: int, b: int, u: int, c: int, d: int, v: int, x: int, y: int, a': int, b': int, u': int)
    requires Combination(a, b, u, x, y) && Combination(c, d, v, x, y) && a' == a - c && b' == b - d && u' == u - v
    ensures Combination(a', b', u', x, y)
  {
    assert (a - c) * x + (b - d) * y == a * x + b * y - (c * x + d * y);
  }

  /** Only with an odd number among x and y can the coefficients be halved exactly. */
  predicate Odd(x: int, y: int) {
    x % 2 == 1 || y % 2 == 1
  }

  /** u, its coefficients, and the fixed x and y. */
  ghost predicate Row(u: MpInt, A: MpInt, B: MpInt, x: MpInt, y: MpInt)
    reads u, A, B, x, y
  {
    && u.Valid() && A.Valid() && B.Valid() && x.Valid() && y.Valid()
    && u != A && u != B && u != x && u != y && A != B && A != x && A != y && B != x && B != y
    && u.Value() >= 0
    && (Odd(x.Value(), y.Value()) ==> Combination(A.Value(), B.Value(), u.Value(), x.Value(), y.Value()))
  }

  /** "if A or B is odd then A = A + y, B = B - x" */
  method MakeEven(A: MpInt, B: MpInt, x: MpInt, y: MpInt, ghost u: int)
    requires A.Valid() && B.Valid() && x.Valid() && y.Valid() && A != B && A != x && A != y && B != x && B != y
    requires Odd(x.Value(), y.Value()) ==> Combination(A.Value(), B.Value(), u, x.Value(), y.Value()) && u % 2 == 0
    modifies A, B
    ensures A.Valid() && B.Valid()
    ensures Odd(x.Value(), y.Value()) ==>
              A.Value() % 2 == 0 && B.Value() % 2 == 0 && Combination(A.Value(), B.Value(), u, x.Value(), y.Value())
  {
    ghost var a, b := A.Value(), B.Value();
    var oddA := IsOdd(A);
    var oddB := IsOdd(B);
    if oddA || oddB {
      AddSub.Add(A, y, A);
      AddSub.Sub(B, x, B);
    }
    if Odd(x.Value(), y.Value()) {
      EvenCombination(a, b, u, x.Value(), y.Value(), A.Value(), B.Value());
    }
  }

  /** Step 4 (and 5) of the slow form, once: halve u and its coefficients. */
  method HalveRow(u: MpInt, A: MpInt, B: MpInt, x: MpInt, y: MpInt)
    requires Row(u, A, B, x, y) && u.Value() % 2 == 0
    modifies u, A, B
    ensures Row(u, A, B, x, y) && old(u.Value()) == 2 * u.Value()
  {
    ghost var v := u.Value();
    Halve(u);
    MakeEven(A, B, x, y, v);
    ghost var ca, cb := A.Value(), B.Value();
    HalveBoth(A, B);
    if Odd(x.Value(), y.Value()) {
      HalfCombination(ca, cb, v, x.Value(), y.Value(), A.Value(), B.Value(), u.Value());
    }
  }

  method HalveBoth(A: MpInt, B: MpInt)
    requires A.Valid() && B.Valid() && A != B
    modifies A, B
    ensures A.Valid() && B.Valid()
    ensures old(A.Value()) % 2 == 0 ==> old(A.Value()) == 2 * A.Value()
    ensures old(B.Value()) % 2 == 0 ==> old(B.Value()) == 2 * B.Value()
  {
    Halve(A);
    Halve(B);
  }

  /** "while u is even do": u becomes its odd part; zero does not count as even. */
  method HalveAll(u: MpInt, A: MpInt, B: MpInt, x: MpInt, y: MpInt, ghost v: nat)
    requires Row(u, A, B, x, y) && (u.Value() > 0 || v > 0)
    modifies u, A, B
    ensures Row(u, A, B, x, y) && u.Value() == OddPartOf(old(u.Value()))
    ensures v % 2 == 1 || old(u.Value()) % 2 == 1 ==>
              (u.Value() > 0 || v > 0) && Gcd(u.Value(), v) == old(Gcd(u.Value(), v))
  {
    ghost var m := u.Value();
    var even := IsEven(u);
    while even
      invariant Row(u, A, B, x, y) && OddPartOf(u.Value()) == OddPartOf(m) && (u.Value() > 0 <==> m > 0)
      invariant even <==> u.Value() != 0 && u.Value() % 2 == 0
      invariant m % 2 == 1 ==> u.Value() == m
      invariant v % 2 == 1 ==> Gcd(u.Value(), v) == old(Gcd(u.Value(), v))
      decreases u.Value()
    {
      HalveRow(u, A, B, x, y);
      if v % 2 == 1 {
        GcdHalve(u.Value(), v);
      }
      even := IsEven(u);
    }
  }

  /** Step 6, one side: subtract the smaller row from the larger. */
  method SubtractRow(u: MpInt, A: MpInt, B: MpInt, v: MpInt, C: MpInt, D: MpInt, x: MpInt, y: MpInt)
    requires Row(u, A, B, x, y) && Row(v, C, D, x, y) && Apart(u, A, B, v, C, D) && u.Value() >= v.Value()
    modifies u, A, B
    ensures Row(u, A, B, x, y) && u.Value() == old(u.Value()) - v.Value()
  {
    ghost var a, b, n := A.Value(), B.Value(), u.Value();
    SubtractThree(u, A, B, v, C, D);
    if Odd(x.Value(), y.Value()) {
      SubtractCombination(a, b, n, C.Value(), D.Value(), v.Value(), x.Value(), y.Value(), A.Value(), B.Value(),
                          u.Value());
    }
  }

  method SubtractThree(u: MpInt, A: MpInt, B: MpInt, v: MpInt, C: MpInt, D: MpInt)
    requires u.Valid() && A.Valid() && B.Valid() && v.Valid() && C.Valid() && D.Valid() && Apart(u, A, B, v, C, D)
    requires u != A && u != B && A != B
    modifies u, A, B
    ensures u.Valid() && A.Valid() && B.Valid() && u.Value() == old(u.Value()) - v.Value()
    ensures A.Value() == old(A.Value()) - C.Value() && B.Value() == old(B.Value()) - D.Value()
  {
    AddSub.Sub(u, v, u);
    AddSub.Sub(A, C, A);
    AddSub.Sub(B, D, B);
  }

  predicate Apart(u: MpInt, A: MpInt, B: MpInt, v: MpInt, C: MpInt, D: MpInt) {
    && u != v && u != C && u != D
    && A != v && A != C && A != D
    && B != v && B != C && B != D
  }

  /**
   What u and v have in common: their divisor, when x or y is odd.  Two even numbers get this far only when x is zero,
   and then u stays zero and v becomes the odd part of y.
   */
  predicate Common(u: int, v: int, x: int, y: int, g: nat) {
    if Odd(x, y) then u >= 0 && v > 0 && Gcd(u, v) == g && (u % 2 == 1 || v % 2 == 1)
    else u == 0 && v > 0 && OddPartOf(v) == g
  }

  /** Both rows, and what their numbers have in common. */
  ghost predicate BothRows(u: MpInt, A: MpInt, B: MpInt, v: MpInt, C: MpInt, D: MpInt, x: MpInt, y: MpInt, g: nat)
    reads u, A, B, v, C, D, x, y
  {
    && Row(u, A, B, x, y) && Row(v, C, D, x, y) && Apart(u, A, B, v, C, D)
    && Common(u.Value(), v.Value(), x.Value(), y.Value(), g)
  }

  /** Both numbers lose their factors of two. */
  lemma CommonOdd(u: nat, v: nat, u1: nat, v1: nat, x: int, y: int, g: nat)
    requires Common(u, v, x, y, g) && u1 == OddPartOf(u) && v1 == OddPartOf(v)
    requires v % 2 == 1 || u % 2 == 1 ==> (u1 > 0 || v > 0) && Gcd(u1, v) == Gcd(u, v)
    requires u1 % 2 == 1 || v % 2 == 1 ==> (v1 > 0 || u1 > 0) && (v > 0 || u1 > 0) && Gcd(v1, u1) == Gcd(v, u1)
    ensures Common(u1, v1, x, y, g) && v1 % 2 == 1 && u1 + v1 <= u + v
    ensures (u > 0 <==> u1 > 0) && (u1 > 0 ==> u1 % 2 == 1)
  {
    OddPartIsOdd(u);
    OddPartIsOdd(v);
    if Odd(x, y) {
      GcdSwap(u1, v);
      GcdSwap(u1, v1);
    }
  }

  /** Steps 4 and 5: both numbers become odd, unless u is zero. */
  method HalveRows(u: MpInt, A: MpInt, B: MpInt, v: MpInt, C: MpInt, D: MpInt, x: MpInt, y: MpInt, ghost g: nat)
    requires BothRows(u, A, B, v, C, D, x, y, g)
    modifies u, A, B, v, C, D
    ensures BothRows(u, A, B, v, C, D, x, y, g) && v.Value() % 2 == 1 && (u.Value() > 0 ==> u.Value() % 2 == 1)
    ensures u.Value() + v.Value() <= old(u.Value() + v.Value()) && (u.Value() > 0 <==> old(u.Value()) > 0)
  {
    ghost var m, k := u.Value(), v.Value();
    HalveAll(u, A, B, x, y, k);
    ghost var m1 := u.Value();
    HalveAll(v, C, D, x, y, m1);
    CommonOdd(m, k, m1, v.Value(), x.Value(), y.Value(), g);
  }

  lemma GcdDifference(a: nat, b: nat)
    requires a > 0 && b > 0
    ensures a >= b ==> Gcd(a - b, b) == Gcd(a, b)
    ensures b >= a ==> Gcd(a, b - a) == Gcd(a, b)
  {
    if a >= b {
      GcdSubtract(a, b);
    }
    if b >= a {
      GcdSwap(a, b);
      GcdSubtract(b, a);
      GcdSwap(b - a, a);
    }
  }

  /** "if u >= v then u = u - v, A = A - C, B = B - D" */
  method TakeFromU(u: MpInt, A: MpInt, B: MpInt, v: MpInt, C: MpInt, D: MpInt, x: MpInt, y: MpInt, ghost g: nat)
    requires BothRows(u, A, B, v, C, D, x, y, g) && u.Value() >= v.Value()
    requires v.Value() % 2 == 1
    modifies u, A, B
    ensures BothRows(u, A, B, v, C, D, x, y, g) && u.Value() == old(u.Value()) - v.Value()
  {
    GcdDifference(u.Value(), v.Value());
    SubtractRow(u, A, B, v, C, D, x, y);
  }

  /** "else v = v - u, C = C - A, D = D - B" */
  method TakeFromV(u: MpInt, A: MpInt, B: MpInt, v: MpInt, C: MpInt, D: MpInt, x: MpInt, y: MpInt, ghost g: nat)
    requires BothRows(u, A, B, v, C, D, x, y, g) && u.Value() < v.Value()
    requires u.Value() % 2 == 1 || (u.Value() == 0 && v.Value() % 2 == 1)
    modifies v, C, D
    ensures BothRows(u, A, B, v, C, D, x, y, g) && v.Value() == old(v.Value()) - u.Value()
  {
    if u.Value() > 0 {
      GcdDifference(u.Value(), v.Value());
    }
    SubtractRow(v, C, D, u, A, B, x, y);
  }

  /** Steps 4 to 6, once. */
  method SlowRound(u: MpInt, A: MpInt, B: MpInt, v: MpInt, C: MpInt, D: MpInt, x: MpInt, y: MpInt, ghost g: nat)
    requires BothRows(u, A, B, v, C, D, x, y, g)
    modifies u, A, B, v, C, D
    ensures BothRows(u, A, B, v, C, D, x, y, g)
    ensures old(u.Value()) > 0 ==> u.Value() + v.Value() < old(u.Value() + v.Value())
    ensures old(u.Value()) == 0 ==> u.Value() == 0 && v.Value() % 2 == 1
  {
    HalveRows(u, A, B, v, C, D, x, y, g);
    var r := Cmp(u, v);
    if r != -1 {
      TakeFromU(u, A, B, v, C, D, x, y, g);
    } else {
      TakeFromV(u, A, B, v, C, D, x, y, g);
    }
  }

  /** What the loop ends with. */
  function Ending(x: nat, y: nat): (g: nat)
    requires y > 0
  {
    if Odd(x, y) then Gcd(x, y) else OddPartOf(y)
  }

  /** Step 3: u = x, v = y, A = 1, B = 0, C = 0, D = 1. */
  method StartRows(x: MpInt, y: MpInt) returns (u: MpInt, A: MpInt, B: MpInt, v: MpInt, C: MpInt, D: MpInt)
    requires x.Valid() && y.Valid() && x != y && x.Value() >= 0 && y.Value() > 0
    requires Odd(x.Value(), y.Value()) || x.Value() == 0
    ensures fresh(u) && fresh(A) && fresh(B) && fresh(v) && fresh(C) && fresh(D)
    ensures u.Valid() && u.Value() == x.Value() && BothRows(u, A, B, v, C, D, x, y, Ending(x.Value(), y.Value()))
  {
    u, A, B := StartRow(x, 1, 0);
    v, C, D := StartRow(y, 0, 1);
    StartCombinations(x.Value(), y.Value());
  }

  lemma StartCombinations(x: int, y: int)
    ensures Combination(1, 0, x, x, y) && Combination(0, 1, y, x, y)
  {
  }

  /** The loop of the slow form: from x = a mod b and y = b to v = gcd and its coefficient of x. */
  method SlowLoop(x: MpInt, y: MpInt) returns (v: MpInt, C: MpInt, ghost d: int)
    requires x.Valid() && y.Valid() && x != y && x.Value() >= 0 && y.Value() > 0
    requires Odd(x.Value(), y.Value()) || x.Value() == 0
    ensures fresh(v) && fresh(C) && v != C && v.Valid() && C.Valid()
    ensures v.Value() == Ending(x.Value(), y.Value()) > 0
    ensures Odd(x.Value(), y.Value()) ==> Combination(C.Value(), d, v.Value(), x.Value(), y.Value())
  {
    ghost var g := Ending(x.Value(), y.Value());
    var u, A, B, D;
    u, A, B, v, C, D := StartRows(x, y);
    var again := true;
    while again
      invariant BothRows(u, A, B, v, C, D, x, y, g)
      invariant fresh(u) && fresh(A) && fresh(B) && fresh(v) && fresh(C) && fresh(D)
      invariant u.Value() > 0 ==> again
      invariant !again && !Odd(x.Value(), y.Value()) ==> v.Value() % 2 == 1
      decreases again, u.Value() + v.Value()
    {
      SlowRound(u, A, B, v, C, D, x, y, g);
      again := NotZero(u);
    }
    EndsAtDivisor(v.Value(), x.Value(), y.Value(), g);
    d := D.Value();
  }

  lemma EndsAtDivisor(v: nat, x: int, y: int, g: nat)
    requires Common(0, v, x, y, g) && (!Odd(x, y) ==> v % 2 == 1)
    ensures v == g
  {
    GcdSwap(0, v);
  }

  /** mp_iszero (&u) == 0 */
  method NotZero(u: MpInt) returns (r: bool)
    requires u.Valid()
    ensures r <==> u.Value() != 0
  {
    ParityOf(u);
    r := u.used != 0;
  }

  /** "mp_copy (&x, &u)", "mp_set (&A, 1)" */
  method StartRow(x: MpInt, a: nat, b: nat) returns (u: MpInt, A: MpInt, B: MpInt)
    requires x.Valid() && a <= 1 && b <= 1
    ensures fresh(u) && fresh(A) && fresh(B) && u != A && u != B && A != B
    ensures u.Valid() && A.Valid() && B.Valid() && u.Value() == x.Value() && A.Value() == a && B.Value() == b
  {
    u := new MpInt();
    Copy(x, u);
    A := SmallNumber(a);
    B := SmallNumber(b);
  }

  method SmallNumber(a: nat) returns (A: MpInt)
    requires a <= 1
    ensures fresh(A) && A.Valid() && A.Value() == a
  {
    A := new MpInt();
    if a == 1 {
      A.Set(1);
    }
  }

  /** "if its too low", "too big": the residue of C in [0, b). */
  method IntoRange(C: MpInt, b: MpInt)
    requires C.Valid() && b.Valid() && b != C && b.Value() > 0
    modifies C
    ensures C.Valid() && C.Value() == old(C.Value()) % b.Value()
  {
    ghost var c0, n := C.Value(), b.Value();
    RaiseAboveZero(C, b);
    MagBounds(b);
    MagBounds(C);
    var r := CmpMag(C, b);
    while r != -1
      invariant C.Valid() && C.Value() >= 0 && C.Value() % n == c0 % n && (r != -1 <==> C.Value() >= n)
      decreases C.Value()
    {
      ReduceTerm(C.Value(), -1, n);
      AddSub.Sub(C, b, C);
      MagBounds(C);
      r := CmpMag(C, b);
    }
    DivUnique(C.Value(), n, 0, C.Value());
  }

  /** What d becomes when b is added until it is not negative. */
  function Raised(d: int, b: nat): int
    requires b > 0
  {
    if d < 0 then d % b else d
  }

  /** "while (C < 0) C = C + b" */
  method RaiseAboveZero(C: MpInt, b: MpInt)
    requires C.Valid() && b.Valid() && b != C && b.Value() > 0
    modifies C
    ensures C.Valid() && C.Value() >= 0 && C.Value() % b.Value() == old(C.Value()) % b.Value()
    ensures C.Value() == Raised(old(C.Value()), b.Value())
  {
    ghost var c0, n := C.Value(), b.Value();
    MagBounds(C);
    while C.neg
      invariant C.Valid() && C.Value() % n == c0 % n && (C.neg <==> C.Value() < 0)
      invariant if c0 < 0 then C.Value() < n else C.Value() == c0
      decreases if C.Value() < 0 then -C.Value() else 0
    {
      ReduceTerm(C.Value(), 1, n);
      AddSub.Add(C, b, C);
      MagBounds(C);
    }
    if c0 < 0 {
      DivUnique(C.Value(), n, 0, C.Value());
    }
  }

  /** mp_cmp_d (&v, 1) == MP_EQ */
  method IsOne(v: MpInt) returns (r: bool)
    requires v.Valid() && v.Value() > 0
    ensures r <==> v.Value() == 1
  {
    MagBounds(v);
    if v.used > 1 {
      WMono(1, v.used - 1);
      assert W(1) == BASE * W(0);
      return false;
    }
    assert Val(v.dp, 0, 1) == v.dp[0];
    return v.dp[0] == 1;
  }

  /** The coefficient of x is its inverse modulo y. */
  lemma CoefficientInverts(c: int, d: int, x: int, y: int, a: int, r: int)
    requires y > 0 && Combination(c, d, 1, x, y) && x == a % y && r % y == c % y
    ensures (a * r) % y == 1 % y
  {
    ReduceTerm(1, -d, y);
    assert 1 + (-d) * y == c * x;
    RemainderIs(a, y);
    ProductCongruence(a, x, r, c, y);
    assert x * c == c * x;
  }

  /** Two even numbers are not coprime. */
  lemma BothEven(x: nat, y: nat)
    requires x % 2 == 0 && y % 2 == 0 && y > 0
    ensures Gcd(x, y) != 1
  {
    GcdGreatest(x, y, 2);
  }

  lemma GcdOfResidue(a: int, b: nat)
    requires b > 0
    ensures a % b >= 0 && Gcd(a % b, b) == Gcd(Abs(a), b)
  {
    DivMod(a, b);
    var g, h := Gcd(a % b, b), Gcd(Abs(a), b);
    GcdDivides(a % b, b);
    GcdDivides(Abs(a), b);
    DividesProduct(g, b, a / b);
    DividesSum(g, (a / b) * b, a % b);
    DividesSign(g, a);
    DividesProduct(h, b, a / b);
    DividesSign(h, a);
    DividesSum(h, a, (a / b) * b);
    SameGcd(a % b, b, Abs(a), b);
  }

  lemma DividesSign(d: nat, a: int)
    requires d > 0
    ensures Divides(d, a) <==> Divides(d, Abs(a))
  {
    if Divides(d, a) {
      DividesProduct(d, a, -1);
    }
    if Divides(d, Abs(a)) {
      DividesProduct(d, Abs(a), -1);
    }
  }

  /** b divides a, and is a power of two. */
  predicate TakesZero(a: int, b: int)
    requires b > 0
  {
    a % b == 0 && OddPartOf(b) == 1
  }

  /**
   mp_invmod_slow: the inverse of a in [0, b), for any b > 0.  MP_OKAY exactly when a and b are coprime, or when b is a
   power of two that divides a: the test for two even numbers does not take zero for even, and then the answer is the
   inverse of nothing unless b is one.
   */
  method InvmodSlow(a: MpInt, b: MpInt, c: MpInt) returns (ok: bool)
    requires a.Valid() && b.Valid() && c.Valid()
    modifies c
    ensures c.Valid()
    ensures ok == (old(b.Value()) > 0 && (Gcd(Abs(old(a.Value())), old(b.Value())) == 1
                                          || TakesZero(old(a.Value()), old(b.Value()))))
    ensures ok ==> 0 <= c.Value() < old(b.Value())
    ensures ok ==> ((old(a.Value()) * c.Value()) % old(b.Value()) == 1 % old(b.Value())
                    <==> Gcd(Abs(old(a.Value())), old(b.Value())) == 1)
  {
    ghost var va, vb := a.Value(), b.Value();
    MagBounds(b);
    if b.neg || b.used == 0 {
      return false;
    }
    GcdOfResidue(va, vb);
    DivMod(va, vb);
    var x := new MpInt();
    var y := new MpInt();
    var done := Modulo.Mod(a, b, x);
    Copy(b, y);
    var ex := IsEven(x);
    var ey := IsEven(y);
    if ex && ey {
      BothEven(x.Value(), y.Value());
      return false;
    }
    ok := SlowInverse(x, y, b, c, va);
  }

  /** Modulo a number above one, zero has no inverse, and no common divisor with it but the number itself. */
  lemma ZeroResidue(a: int, b: nat, c: int)
    requires b > 0 && a % b == 0
    ensures Gcd(0, b) == b && ((a * c) % b == 1 % b <==> b == 1)
  {
    GcdSwap(0, b);
    DivUnique(0, b, 0, 0);
    ScaleCongruence(a, 0, b, c);
    MulZero(c);
    if b > 1 {
      DivUnique(1, b, 0, 1);
    }
  }

  lemma OddPartOfOdd(b: nat)
    requires b % 2 == 1
    ensures OddPartOf(b) == b
  {
  }

  /** The loop and the end of the slow form. */
  method SlowInverse(x: MpInt, y: MpInt, b: MpInt, c: MpInt, ghost va: int) returns (ok: bool)
    requires x.Valid() && y.Valid() && x != y && x.Value() >= 0 && y.Value() > 0 && c.Valid() && x != c && y != c
    requires Odd(x.Value(), y.Value()) || x.Value() == 0
    requires b.Valid() && b.Value() == y.Value() && x.Value() == va % y.Value()
    modifies c
    ensures c.Valid() && ok == (Gcd(x.Value(), y.Value()) == 1 || TakesZero(va, y.Value()))
    ensures ok ==> 0 <= c.Value() < y.Value()
    ensures ok ==> ((va * c.Value()) % y.Value() == 1 % y.Value() <==> Gcd(x.Value(), y.Value()) == 1)
  {
    ghost var vx, vb := x.Value(), y.Value();
    var v, C;
    ghost var d;
    v, C, d := SlowLoop(x, y);
    EndingOne(vx, vb, va);
    ok := IsOne(v);
    if ok {
      ghost var cc := C.Value();
      IntoRange(C, b);
      DivMod(cc, vb);
      SlowAnswer(va, vx, vb, cc, d, C.Value());
      Move(C, c);
    }
  }

  /** When the loop ends with one. */
  lemma EndingOne(x: nat, y: nat, a: int)
    requires y > 0 && x == a % y && (Odd(x, y) || x == 0)
    ensures Ending(x, y) == 1 <==> Gcd(x, y) == 1 || TakesZero(a, y)
  {
    if x == 0 {
      GcdSwap(0, y);
      if y % 2 == 1 {
        OddPartOfOdd(y);
      }
    }
  }

  lemma SlowAnswer(a: int, x: nat, y: nat, c: int, d: int, r: int)
    requires y > 0 && x == a % y && r == c % y && (Gcd(x, y) == 1 || TakesZero(a, y)) && Ending(x, y) == 1
    requires Odd(x, y) ==> Combination(c, d, 1, x, y)
    requires Odd(x, y) || x == 0
    ensures (a * r) % y == 1 % y <==> Gcd(x, y) == 1
  {
    if x == 0 {
      ZeroResidue(a, y, r);
    } else {
      RemainderIs(c, y);
      CoefficientInverts(c, d, x, y, a, r);
    }
  }

  // ----- the fast form: odd modulus

  /** b times y is u modulo x. */
  ghost predicate Multiple(b: int, u: int, x: int, y: int)
    requires x > 0
  {
    (b * y) % x == u % x
  }

  /** Two can be cancelled modulo an odd number. */
  lemma HalfMultiple(b: int, u: int, x: int, y: int, b': int, u': int)
    requires x > 0 && x % 2 == 1 && Multiple(b, u, x, y) && u == 2 * u' && (b == 2 * b' || b - x == 2 * b')
    ensures Multiple(b', u', x, y)
  {
    HalfInverse(x);
    ReduceTerm(b * y, -y, x);
    assert (b - x) * y == b * y + (-y) * x;
    assert (b' * y) * 2 == (2 * b') * y;
    CancelFactor(b' * y, u', 2, (x + 1) / 2, x);
  }

  lemma DifferenceOfMultiples(b: int, u: int, d: int, v: int, x: int, y: int)
    requires x > 0 && Multiple(b, u, x, y) && Multiple(d, v, x, y)
    ensures Multiple(b - d, u - v, x, y)
  {
    SignedCongruence(d * y, v, x);
    SumCongruence(b * y, u, -(d * y), -v, x);
    assert (b - d) * y == b * y + -(d * y);
  }

  lemma SignedCongruence(p: int, q: int, n: int)
    requires n > 0 && p % n == q % n
    ensures (-p) % n == (-q) % n
  {
    ScaleCongruence(p, q, n, -1);
  }

  /** u and its coefficient B, modulo x. */
  ghost predicate Short(u: MpInt, B: MpInt, x: MpInt, y: int)
    reads u, B, x
  {
    && u.Valid() && B.Valid() && x.Valid() && u != B && u != x && B != x
    && u.Value() >= 0 && x.Value() > 0 && x.Value() % 2 == 1 && Multiple(B.Value(), u.Value(), x.Value(), y)
  }

  /** Step 4 (and 5) of the fast form, once. */
  method HalveShort(u: MpInt, B: MpInt, x: MpInt, ghost y: int)
    requires Short(u, B, x, y) && u.Value() % 2 == 0
    modifies u, B
    ensures Short(u, B, x, y) && old(u.Value()) == 2 * u.Value() && B.Value() == HalfOf(old(B.Value()), x.Value())
  {
    ghost var v, b, n := u.Value(), B.Value(), x.Value();
    Halve(u);
    HalfMultipleOf(b, v, n, y, u.Value());
    HalveCoefficient(B, x);
  }

  /** "if B is odd then B = B - x", "B = B / 2" */
  method HalveCoefficient(B: MpInt, x: MpInt)
    requires B.Valid() && x.Valid() && B != x && x.Value() % 2 == 1
    modifies B
    ensures B.Valid() && B.Value() == HalfOf(old(B.Value()), x.Value())
  {
    ghost var b := B.Value();
    var odd := IsOdd(B);
    if odd {
      OddDifference(b, x.Value());
      AddSub.Sub(B, x, B);
    }
    Halve(B);
    HalfIsHalf(b, x.Value(), B.Value());
  }

  lemma HalfIsHalf(b: int, x: int, h: int)
    requires x % 2 == 1 && 2 * h == if b % 2 == 1 then b - x else b
    ensures h == HalfOf(b, x)
  {
  }

  lemma OddDifference(b: int, x: int)
    requires b % 2 == 1 && x % 2 == 1
    ensures (b - x) % 2 == 0
  {
  }

  function HalfOf(b: int, x: int): int {
    if b % 2 == 1 then (b - x) / 2 else b / 2
  }

  lemma HalfMultipleOf(b: int, u: int, x: int, y: int, h: int)
    requires x > 0 && x % 2 == 1 && Multiple(b, u, x, y) && u == 2 * h
    ensures Multiple(HalfOf(b, x), h, x, y)
  {
    HalfMultiple(b, u, x, y, HalfOf(b, x), h);
  }

  /** What that makes of the coefficient of u until u is odd. */
  function HalvedWith(b: int, u: nat, x: int): int
    decreases u
  {
    if u > 0 && u % 2 == 0 then HalvedWith(HalfOf(b, x), u / 2, x) else b
  }

  /** "while u is even do" */
  method HalveShortAll(u: MpInt, B: MpInt, x: MpInt, ghost y: int, ghost v: nat)
    requires Short(u, B, x, y) && (u.Value() > 0 || v > 0)
    modifies u, B
    ensures Short(u, B, x, y) && u.Value() == OddPartOf(old(u.Value()))
    ensures B.Value() == HalvedWith(old(B.Value()), old(u.Value()), x.Value())
    ensures v % 2 == 1 || old(u.Value()) % 2 == 1 ==>
              (u.Value() > 0 || v > 0) && Gcd(u.Value(), v) == old(Gcd(u.Value(), v))
  {
    ghost var m, b := u.Value(), B.Value();
    var even := IsEven(u);
    while even
      invariant Short(u, B, x, y) && OddPartOf(u.Value()) == OddPartOf(m) && (u.Value() > 0 <==> m > 0)
      invariant HalvedWith(B.Value(), u.Value(), x.Value()) == HalvedWith(b, m, x.Value())
      invariant even <==> u.Value() != 0 && u.Value() % 2 == 0
      invariant m % 2 == 1 ==> u.Value() == m
      invariant v % 2 == 1 ==> Gcd(u.Value(), v) == old(Gcd(u.Value(), v))
      decreases u.Value()
    {
      HalveShort(u, B, x, y);
      if v % 2 == 1 {
        GcdHalve(u.Value(), v);
      }
      even := IsEven(u);
    }
  }

  /** Both short rows; a v that is zero stays zero. */
  ghost predicate Shorts(u: MpInt, B: MpInt, v: MpInt, D: MpInt, x: MpInt, y: int, g: nat)
    reads u, B, v, D, x
  {
    && Short(u, B, x, y) && Short(v, D, x, y) && u != v && u != D && B != v && B != D
    && (v.Value() > 0 ==> Common(u.Value(), v.Value(), 1, 1, g)) && (v.Value() == 0 ==> u.Value() % 2 == 1)
  }

  /** Step 6, the side that subtracts from u; the other side is the same call with the rows exchanged. */
  method SubtractShort(u: MpInt, B: MpInt, v: MpInt, D: MpInt, x: MpInt, ghost y: int)
    requires Short(u, B, x, y) && Short(v, D, x, y) && u != v && u != D && B != v && B != D && u.Value() >= v.Value()
    modifies u, B
    ensures Short(u, B, x, y) && u.Value() == old(u.Value()) - v.Value()
    ensures B.Value() == old(B.Value()) - D.Value()
  {
    DifferenceOfMultiples(B.Value(), u.Value(), D.Value(), v.Value(), x.Value(), y);
    AddSub.Sub(u, v, u);
    AddSub.Sub(B, D, B);
  }

  method HalveShorts(u: MpInt, B: MpInt, v: MpInt, D: MpInt, x: MpInt, ghost y: int, ghost g: nat)
    requires Shorts(u, B, v, D, x, y, g) && u.Value() > 0
    modifies u, B, v, D
    ensures Shorts(u, B, v, D, x, y, g) && u.Value() > 0 && u.Value() % 2 == 1
    ensures v.Value() % 2 == 1 || v.Value() == 0
    ensures u.Value() == OddPartOf(old(u.Value())) && v.Value() == OddPartOf(old(v.Value()))
    ensures RowsOf(u, B, v, D) == HalvedRows(old(RowsOf(u, B, v, D)), x.Value())
    ensures u.Value() + v.Value() <= old(u.Value() + v.Value()) && (v.Value() > 0 <==> old(v.Value()) > 0)
  {
    ghost var m, k := u.Value(), v.Value();
    OddPartIsOdd(m);
    OddPartIsOdd(k);
    HalveShortAll(u, B, x, y, k);
    ghost var m1 := u.Value();
    HalveShortAll(v, D, x, y, m1);
    if k > 0 {
      CommonOdd(m, k, m1, v.Value(), 1, 1, g);
    }
  }

  /** What steps 4 to 6 do to u and v. */
  function FastStep(u: nat, v: nat): (nat, nat) {
    var u1, v1 := OddPartOf(u), OddPartOf(v);
    if u1 >= v1 then (u1 - v1, v1) else (u1, v1 - u1)
  }

  function FastSteps(u: nat, v: nat, n: nat): (nat, nat) {
    if n == 0 then (u, v) else var p := FastSteps(u, v, n - 1); FastStep(p.0, p.1)
  }

  /**
   Why fast_mp_invmod needs an a that b does not divide: from v = 0 no number of rounds brings u to zero, and so its
   loop does not end.
   */
  lemma {:induction false} NeverEnds(b: nat, n: nat)
    requires b % 2 == 1
    ensures FastSteps(b, 0, n) == (b, 0)
  {
    OddPartOfOdd(b);
    if n > 0 {
      NeverEnds(b, n - 1);
    }
  }

  /** The two rows. */
  datatype RowPair = RowPair(u: nat, b: int, v: nat, d: int)

  /** Steps 4 and 5 on the rows. */
  function HalvedRows(s: RowPair, x: int): RowPair {
    RowPair(OddPartOf(s.u), HalvedWith(s.b, s.u, x), OddPartOf(s.v), HalvedWith(s.d, s.v, x))
  }

  /** Step 6 on the rows. */
  function SubtractedRows(s: RowPair): RowPair {
    if s.u >= s.v then RowPair(s.u - s.v, s.b - s.d, s.v, s.d) else RowPair(s.u, s.b, s.v - s.u, s.d - s.b)
  }

  /** What steps 4 to 6 do to the rows. */
  function FastRows(s: RowPair, x: int): RowPair {
    SubtractedRows(HalvedRows(s, x))
  }

  /** The coefficient of v when the loop ends. */
  function FastRun(s: RowPair, x: int): int
    decreases s.u + s.v
  {
    OddPartIsOdd(s.u);
    OddPartIsOdd(s.v);
    if s.u == 0 || s.v == 0 then s.d else FastRun(FastRows(s, x), x)
  }

  ghost function RowsOf(u: MpInt, B: MpInt, v: MpInt, D: MpInt): RowPair
    requires u.used <= |u.dp| && B.used <= |B.dp| && v.used <= |v.dp| && D.used <= |D.dp|
    requires u.Value() >= 0 && v.Value() >= 0
    reads u, B, v, D
  {
    RowPair(u.Value(), B.Value(), v.Value(), D.Value())
  }

  /** Steps 4 to 6 of the fast form, once. */
  method FastRound(u: MpInt, B: MpInt, v: MpInt, D: MpInt, x: MpInt, ghost y: int, ghost g: nat)
    requires Shorts(u, B, v, D, x, y, g) && u.Value() > 0
    modifies u, B, v, D
    ensures Shorts(u, B, v, D, x, y, g)
    ensures (u.Value(), v.Value()) == FastStep(old(u.Value()), old(v.Value()))
    ensures RowsOf(u, B, v, D) == FastRows(old(RowsOf(u, B, v, D)), x.Value())
    ensures old(v.Value()) > 0 ==> v.Value() > 0 && u.Value() + v.Value() < old(u.Value() + v.Value())
  {
    HalveShorts(u, B, v, D, x, y, g);
    SubtractShorts(u, B, v, D, x, y, g);
  }

  /** "if u >= v then u = u - v, B = B - D else v = v - u, D = D - B" */
  method SubtractShorts(u: MpInt, B: MpInt, v: MpInt, D: MpInt, x: MpInt, ghost y: int, ghost g: nat)
    requires Shorts(u, B, v, D, x, y, g) && u.Value() > 0 && u.Value() % 2 == 1
    requires v.Value() % 2 == 1 || v.Value() == 0
    modifies u, B, v, D
    ensures Shorts(u, B, v, D, x, y, g)
    ensures RowsOf(u, B, v, D) == SubtractedRows(old(RowsOf(u, B, v, D)))
    ensures old(v.Value()) > 0 ==> v.Value() > 0 && u.Value() + v.Value() < old(u.Value() + v.Value())
  {
    if v.Value() > 0 {
      GcdDifference(u.Value(), v.Value());
    }
    var r := Cmp(u, v);
    if r != -1 {
      SubtractShort(u, B, v, D, x, y);
    } else {
      SubtractShort(v, D, u, B, x, y);
    }
  }

  /** The loop of the fast form. */
  method FastLoop(x: MpInt, y: MpInt) returns (v: MpInt, D: MpInt)
    requires x.Valid() && y.Valid() && x != y && x.Value() > 0 && y.Value() > 0 && x.Value() % 2 == 1
    ensures fresh(v) && fresh(D) && v != D && v.Valid() && D.Valid()
    ensures v.Value() == Gcd(y.Value(), x.Value()) && Multiple(D.Value(), v.Value(), x.Value(), y.Value())
    ensures D.Value() == FastRun(RowPair(x.Value(), 0, y.Value(), 1), x.Value())
  {
    ghost var n, m := x.Value(), y.Value();
    ghost var g := Gcd(n, m);
    var u, B, A;
    u, B, A := StartRow(x, 0, 0);
    v, D, A := StartRow(y, 1, 0);
    StartMultiples(n, m);
    var again := true;
    while again
      invariant Shorts(u, B, v, D, x, m, g) && x.Value() == n && v.Value() > 0
      invariant fresh(u) && fresh(B) && fresh(v) && fresh(D)
      invariant again <==> u.Value() > 0
      invariant FastRun(RowsOf(u, B, v, D), n) == FastRun(RowPair(n, 0, m, 1), n)
      decreases u.Value() + v.Value()
    {
      FastRound(u, B, v, D, x, m, g);
      again := NotZero(u);
    }
    GcdSwap(u.Value(), v.Value());
    GcdSwap(n, m);
  }

  lemma StartMultiples(n: int, m: int)
    requires n > 0
    ensures Multiple(0, n, n, m) && Multiple(1, m, n, m)
  {
    DivUnique(n, n, 1, 0);
    DivUnique(0, n, 0, 0);
  }

  /** What the fast form's answer is worth: it copies the sign of a onto a number that inverts a itself. */
  lemma SignedAnswer(a: int, b: int, d: int, y: int, r: int, neg: bool)
    requires b > 0 && 0 < y == a % b && Multiple(d, 1, b, y) && r % b == d % b && (neg <==> a < 0)
    ensures r != 0 && (a * (if neg then -r else r)) % b == (if a < 0 then -1 else 1) % b
  {
    DivMod(a, b);
    RemainderIs(a, b);
    ProductCongruence(a, y, r, d, b);
    assert y * d == d * y;
    SignedCongruence(a * r, 1, b);
    assert a * -r == -(a * r);
    if r == 0 {
      MulZero(a);
      DivUnique(1, b, 0, 1);
      DivUnique(0, b, 0, 0);
    }
  }

  lemma MinusOne(b: int)
    requires b > 0
    ensures (-1) % b == 1 % b <==> b <= 2
  {
    if b == 1 {
    } else if b == 2 {
    } else {
      DivUnique(-1, b, -1, b - 1);
      DivUnique(1, b, 0, 1);
    }
  }

  /** The number that fast_mp_invmod gives for a modulo b. */
  function FastInverseOf(a: int, b: nat): int
    requires b > 0
  {
    DivMod(a, b);
    var r := Raised(FastRun(RowPair(b, 0, a % b, 1), b), b);
    if a < 0 then -r else r
  }

  /**
   fast_mp_invmod; MP_OKAY exactly when b is odd and coprime to a.  The result inverts a when a >= 0, and -a when a < 0:
   then it is the inverse of a only modulo one and two.  It does not return when b is odd and divides a.
   */
  method InvmodFast(a: MpInt, b: MpInt, c: MpInt) returns (ok: bool)
    requires a.Valid() && b.Valid() && c.Valid() && b.Value() > 0
    requires b.Value() % 2 == 1 ==> a.Value() % b.Value() != 0
    modifies c
    ensures c.Valid() && ok == (old(b.Value()) % 2 == 1 && Gcd(Abs(old(a.Value())), old(b.Value())) == 1)
    ensures ok ==>
              (old(a.Value()) * c.Value()) % old(b.Value()) == (if old(a.Value()) < 0 then -1 else 1) % old(b.Value())
    ensures ok ==> c.Value() == FastInverseOf(old(a.Value()), old(b.Value()))
    ensures ok && old(a.Value()) >= 0 ==> c.Value() >= 0
  {
    var even := IsEven(b);
    if even {
      return false;
    }
    ghost var va, vb := a.Value(), b.Value();
    MagBounds(a);
    MagBounds(b);
    GcdOfResidue(va, vb);
    DivMod(va, vb);
    var x := new MpInt();
    var y := new MpInt();
    Copy(b, x);
    var done := Modulo.Mod(a, b, y);
    ok := FastInverse(x, y, b, c, a.neg, va);
  }

  /** The loop and the end of the fast form. */
  method FastInverse(x: MpInt, y: MpInt, b: MpInt, c: MpInt, neg: bool, ghost va: int) returns (ok: bool)
    requires x.Valid() && y.Valid() && x != y && x.Value() > 0 && y.Value() > 0 && c.Valid() && x != c && y != c
    requires x.Value() % 2 == 1 && b.Valid() && b.Value() == x.Value() && y.Value() == va % x.Value()
    requires neg <==> va < 0
    modifies c
    ensures c.Valid() && ok == (Gcd(y.Value(), x.Value()) == 1)
    ensures ok ==> (va * c.Value()) % x.Value() == (if va < 0 then -1 else 1) % x.Value()
    ensures ok ==> c.Value() == FastInverseOf(va, x.Value())
    ensures ok && va >= 0 ==> c.Value() >= 0
  {
    ghost var n, m := x.Value(), y.Value();
    var v, D := FastLoop(x, y);
    ok := IsOne(v);
    if ok {
      FinishFast(D, b, c, neg, va, m);
      assert c.Value() == FastInverseOf(va, n);
    }
  }

  /** "b is now the inverse" */
  method FinishFast(D: MpInt, b: MpInt, c: MpInt, neg: bool, ghost va: int, ghost m: int)
    requires D.Valid() && b.Valid() && c.Valid() && D != b && D != c && b.Value() > 0
    requires 0 < m == va % b.Value() && Multiple(D.Value(), 1, b.Value(), m) && (neg <==> va < 0)
    modifies D, c
    ensures c.Valid() && (va * c.Value()) % old(b.Value()) == (if va < 0 then -1 else 1) % old(b.Value())
    ensures var r := Raised(old(D.Value()), old(b.Value())); c.Value() == (if neg then -r else r) && r >= 0
  {
    ghost var d, n := D.Value(), b.Value();
    RaiseAboveZero(D, b);
    SignedAnswer(va, n, d, m, D.Value(), neg);
    MagBounds(D);
    Move(D, c);
    CopySign(c, neg);
  }

  /** "c->sign = neg" */
  method CopySign(c: MpInt, neg: bool)
    requires c.Valid() && !c.neg && c.Value() != 0
    modifies c
    ensures c.Valid() && c.Value() == if neg then -old(c.Value()) else old(c.Value())
  {
    MagBounds(c);
    c.neg := neg;
  }

  /**
   mp_invmod: false is MP_VAL, for a modulus that is not positive or has a factor in common with a.  Otherwise c is an
   inverse of a modulo b, except that an odd modulus gives an inverse of -a when a is negative, and that a power of two
   which divides a is accepted although nothing inverts a.
   */
  method Invmod(a: MpInt, b: MpInt, c: MpInt) returns (ok: bool)
    requires a.Valid() && b.Valid() && c.Valid()
    requires b.Value() > 0 && b.Value() % 2 == 1 ==> a.Value() % b.Value() != 0
    modifies c
    ensures c.Valid() && ok == (old(b.Value()) > 0 && (Gcd(Abs(old(a.Value())), old(b.Value())) == 1
                                                       || TakesZero(old(a.Value()), old(b.Value()))))
    ensures ok && Gcd(Abs(old(a.Value())), old(b.Value())) == 1 ==>
              (old(a.Value()) * c.Value()) % old(b.Value()) ==
              (if old(b.Value()) % 2 == 1 && old(a.Value()) < 0 then -1 else 1) % old(b.Value())
    ensures ok && Gcd(Abs(old(a.Value())), old(b.Value())) != 1 ==>
              (old(a.Value()) * c.Value()) % old(b.Value()) != 1 % old(b.Value())
    ensures ok && old(a.Value()) >= 0 ==> c.Value() >= 0
    ensures ok ==> if old(b.Value()) % 2 == 0 then 0 <= c.Value() < old(b.Value())
                   else c.Value() == FastInverseOf(old(a.Value()), old(b.Value()))
  {
    MagBounds(b);
    if b.neg || b.used == 0 {
      return false;
    }
    var odd := IsOdd(b);
    if odd {
      ok := InvmodFast(a, b, c);
    } else {
      ok := InvmodSlow(a, b, c);
    }
  }

  /** The rows of the fast form for 253 modulo 777. */
  function Trace(i: nat): RowPair {
    if i == 0 then RowPair(777, 0, 253, 1) else
    if i == 1 then RowPair(524, -1, 253, 1) else
    if i == 2 then RowPair(131, -583, 122, 584) else
    if i == 3 then RowPair(70, -875, 61, 292) else
    if i == 4 then RowPair(35, -826, 26, 1118) else
    if i == 5 then RowPair(22, -1385, 13, 559) else
    if i == 6 then RowPair(11, -1081, 2, 1640) else
    if i == 7 then RowPair(10, -1901, 1, 820) else
    if i == 8 then RowPair(4, -2159, 1, 820) else
    RowPair(0, -1554, 1, 820)
  }

  lemma FirstStep(x: int)
    requires x == 777
    ensures FastRows(RowPair(777, 0, 253, 1), x) == RowPair(524, -1, 253, 1)
  {
  }

  lemma NextSteps(i: nat, x: int)
    requires 1 <= i < 4 && x == 777
    ensures Trace(i).u > 0 && Trace(i).v > 0 && FastRows(Trace(i), x) == Trace(i + 1)
  {
    if i == 1 {
      assert FastRows(RowPair(524, -1, 253, 1), x) == RowPair(131, -583, 122, 584);
    } else if i == 2 {
      assert FastRows(RowPair(131, -583, 122, 584), x) == RowPair(70, -875, 61, 292);
    } else {
      assert FastRows(RowPair(70, -875, 61, 292), x) == RowPair(35, -826, 26, 1118);
    }
  }

  lemma LastSteps(i: nat, x: int)
    requires 4 <= i < 9 && x == 777
    ensures Trace(i).u > 0 && Trace(i).v > 0 && FastRows(Trace(i), x) == Trace(i + 1)
  {
    if i == 4 {
      assert FastRows(RowPair(35, -826, 26, 1118), x) == RowPair(22, -1385, 13, 559);
    } else if i == 5 {
      assert FastRows(RowPair(22, -1385, 13, 559), x) == RowPair(11, -1081, 2, 1640);
    } else if i == 6 {
      assert FastRows(RowPair(11, -1081, 2, 1640), x) == RowPair(10, -1901, 1, 820);
    } else if i == 7 {
      assert FastRows(RowPair(10, -1901, 1, 820), x) == RowPair(4, -2159, 1, 820);
    } else {
      assert FastRows(RowPair(4, -2159, 1, 820), x) == RowPair(0, -1554, 1, 820);
    }
  }

  lemma {:induction false} TraceRun(s: RowPair, i: nat, x: int)
    requires i <= 9 && x == 777 && s == Trace(i)
    ensures FastRun(s, x) == 820
    decreases 9 - i
  {
    if i < 9 {
      if i == 0 {
        FirstStep(x);
      } else if i < 4 {
        NextSteps(i, x);
      } else {
        LastSteps(i, x);
      }
      TraceRun(FastRows(s, x), i + 1, x);
    }
  }

  lemma TraceStarts(a: nat, b: nat)
    requires a == 253 && b == 777
    ensures Trace(0) == RowPair(b, 0, a, 1)
  {
  }

  lemma TracedInverse(a: nat, b: nat, s: RowPair, i: nat)
    requires i <= 9 && a < b == 777 && s == Trace(i) == RowPair(b, 0, a, 1)
    ensures FastInverseOf(a, b) == 820
  {
    DivUnique(a, b, 0, a);
    TraceRun(s, i, b);
  }

  /** An odd modulus does not bound the answer: 253 times 820 is one modulo 777. */
  lemma AboveModulus(a: nat, b: nat)
    requires a == 253 && b == 777
    ensures FastInverseOf(a, b) == 820
  {
    TraceStarts(a, b);
    TracedInverse(a, b, Trace(0), 0);
  }

  /** Modulo an odd number above two, the sign of a negative a spoils the answer. */
  lemma NegativeSpoils(a: int, b: int, c: int)
    requires b > 2 && (a * c) % b == (-1) % b
    ensures (a * c) % b != 1 % b
  {
    MinusOne(b);
  }
}
