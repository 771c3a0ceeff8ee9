/** The entries of ltm_prime_tab are the primes up to 1619, in order. */
module PrimeTable {
  import opened Arith
  import opened Radix
  import Divisors
  import opened Fermat
  import opened PrimeEntries

  // ----- trial division finds the primes

  lemma {:induction false} PrimeSifted(n: nat, d: nat)
    requires IsPrime(n) && d >= 5
    ensures Sifted(n, d)
    decreases n - d
  {
    if d * d <= n {
      MulMono(5, d, d);
      PrimeSifted(n, d + 6);
    }
  }

  /** What is sifted has no divisor next to a multiple of six up to its square root. */
  lemma {:induction false} SiftedHits(n: nat, d: nat, e: nat, k: nat)
    requires d > 0 && Sifted(n, d) && (e == d + 6 * k || e == d + 2 + 6 * k) && e < n && e * e <= n
    ensures e > 0 && n % e != 0
    decreases k
  {
    SquareMono(d, e);
    if k > 0 {
      SiftedHits(n, d + 6, e, k - 1);
    }
  }

  /** What neither two nor three divides is next to a multiple of six. */
  lemma NextToSix(e: nat) returns (k: nat)
    requires e > 3 && e % 2 != 0 && e % 3 != 0
    ensures e == 5 + 6 * k || e == 7 + 6 * k
  {
    var q, r := e / 6, e % 6;
    if r % 2 == 0 {
      DivUnique(e, 2, 3 * q + r / 2, 0);
    } else if r == 3 {
      DivUnique(e, 3, 2 * q + 1, 0);
    }
    k := if r == 5 then q else q - 1;
  }

  lemma SquareMono(d: nat, e: nat)
    requires d <= e
    ensures d * d <= e * e
  {
    MulMono(d, e, d);
    MulMono(d, e, e);
  }

  /** No divisor up to the square root. */
  lemma NoSmallDivisor(n: nat, e: nat)
    requires Tried(n) && 2 <= e < n && e * e <= n
    ensures n % e != 0
  {
    if n % e == 0 {
      if e % 2 == 0 {
        Divisors.DividesTrans(2, e, n);
      } else if e % 3 == 0 {
        Divisors.DividesTrans(3, e, n);
      } else {
        var k := NextToSix(e);
        SiftedHits(n, 5, e, k);
      }
    }
  }

  /** Trial division finds exactly the primes. */
  lemma TriedIffPrime(n: nat)
    ensures Tried(n) <==> IsPrime(n)
  {
    if IsPrime(n) {
      PrimeSifted(n, 5);
    } else if Tried(n) {
      var e :| 2 <= e < n && n % e == 0;
      var q := n / e;
      DivMod(n, e);
      Cofactor(n, e, q);
      if e <= q {
        SquareBelow(e, q, n);
        NoSmallDivisor(n, e);
      } else {
        SquareBelow(q, e, n);
        NoSmallDivisor(n, q);
      }
    }
  }

  lemma SquareBelow(d: nat, q: nat, n: nat)
    requires d <= q && d * q == n
    ensures d * d <= n
  {
    MulMono(d, q, d);
  }

  lemma Cofactor(n: nat, d: nat, q: int)
    requires n == q * d && 2 <= d < n
    ensures 2 <= q < n && n % q == 0 && d * q == n
  {
    if q <= 1 {
      MulMono(q, 1, d);
    } else {
      DivUnique(n, q, d, 0);
      MulMono(2, d, q);
    }
  }

  // ----- the entries are the first 256 primes

  /** A number is in the table. */
  ghost predicate Listed(a: int) {
    exists i {:trigger PrimeTab(i)} :: 0 <= i < PRIME_SIZE && PrimeTab(i) == a
  }

  lemma LastEntry()
    ensures PrimeTab(255) == 1619
  {
  }

  lemma EntryAtMostLast(i: nat)
    requires i < PRIME_SIZE
    ensures PrimeTab(i) <= 1619
  {
    LastEntry();
    if i < 255 {
      TableAscends(i, 255);
    }
  }

  /** The numbers in the table are the primes up to 1619. */
  lemma ListedIffPrime(n: nat)
    ensures Listed(n) <==> IsPrime(n) && n <= 1619
  {
    TriedIffPrime(n);
    if Listed(n) {
      var i {:trigger PrimeTab(i)} :| 0 <= i < PRIME_SIZE && PrimeTab(i) == n;
      EntryTried(i);
      EntryAtMostLast(i);
    } else if Tried(n) && n <= 1619 {
      LastEntry();
      var i := FindEntry(n, 255);
    }
  }

  /** How many primes are smaller than n. */
  function PrimesBelow(n: nat): nat {
    if n == 0 then 0 else PrimesBelow(n - 1) + if IsPrime(n - 1) then 1 else 0
  }

  lemma {:induction false} NoPrimeBetween(p: nat, q: nat, n: nat)
    requires ComesAfter(p, q) && p < n <= q
    ensures PrimesBelow(n) == PrimesBelow(p + 1)
  {
    if n > p + 1 {
      NothingBetween(p, q, n - 1);
      TriedIffPrime(n - 1);
      NoPrimeBetween(p, q, n - 1);
    }
  }

  /** Entry i is the prime with i smaller ones. */
  lemma {:induction false} EntryIsNthPrime(i: nat)
    requires i < PRIME_SIZE
    ensures IsPrime(PrimeTab(i)) && PrimesBelow(PrimeTab(i)) == i
  {
    EntryTried(i);
    TriedIffPrime(PrimeTab(i));
    if i == 0 {
      assert PrimesBelow(2) == PrimesBelow(1) == PrimesBelow(0);
    } else {
      EntryIsNthPrime(i - 1);
      EntryComesAfter(i);
      NoPrimeBetween(PrimeTab(i - 1), PrimeTab(i), PrimeTab(i));
    }
  }

  /** Every table entry is prime and fits a digit. */
  lemma TablePrime(i: nat)
    requires i < PRIME_SIZE
    ensures IsPrime(PrimeTab(i)) && PrimeTab(i) < BASE
  {
    EntryIsNthPrime(i);
    EntryAtMostLast(i);
  }

  lemma {:induction false} PrimesBelowGrows(p: nat, n: nat)
    requires IsPrime(p) && p < n
    ensures PrimesBelow(p) < PrimesBelow(n)
  {
    if p + 1 < n {
      PrimesBelowGrows(p, n - 1);
    }
  }

  /** The first 256 primes in order, which are the primes up to 1619. */
  ghost predicate FirstPrimes(tab: seq<nat>) {
    && |tab| == PRIME_SIZE
    && (forall i :: 0 <= i < PRIME_SIZE ==> IsPrime(tab[i]) && tab[i] <= 1619 && PrimesBelow(tab[i]) == i)
    && (forall p: nat :: IsPrime(p) && p <= 1619 ==> p in tab)
  }

  /** The table as the loops over it see it. */
  method LoadTable() returns (tab: seq<nat>)
    ensures FirstPrimes(tab)
  {
    tab := seq(PRIME_SIZE, i requires 0 <= i < PRIME_SIZE => PrimeTab(i));
    forall i | 0 <= i < PRIME_SIZE ensures IsPrime(tab[i]) && tab[i] <= 1619 && PrimesBelow(tab[i]) == i {
      EntryIsNthPrime(i);
      EntryAtMostLast(i);
    }
    forall p: nat | IsPrime(p) && p <= 1619 ensures p in tab {
      ListedIffPrime(p);
      var i {:trigger PrimeTab(i)} :| 0 <= i < PRIME_SIZE && PrimeTab(i) == p;
      assert tab[i] == p;
    }
  }

  /** A prime with i smaller ones is the one at place i. */
  lemma PlaceOfPrime(tab: seq<nat>, p: nat)
    requires FirstPrimes(tab) && IsPrime(p) && PrimesBelow(p) < PRIME_SIZE
    ensures tab[PrimesBelow(p)] == p
  {
    var q := tab[PrimesBelow(p)];
    if p < q {
      PrimesBelowGrows(p, q);
    } else if q < p {
      PrimesBelowGrows(q, p);
    }
  }

  // ----- trial division by the table

  /** The primes of the table. */
  predicate SmallPrime(p: int) {
    IsPrime(p) && p <= 1619
  }

  /** One of them divides n. */
  ghost predicate SmallPrimeDivides(n: nat) {
    exists p: nat :: SmallPrime(p) && n % p == 0
  }

  /** The least divisor, from d on. */
  lemma {:induction false} LeastDivisor(n: nat, d: nat) returns (p: nat)
    requires 2 <= d <= n && forall e :: 2 <= e < d ==> n % e != 0
    ensures d <= p <= n && n % p == 0 && forall e :: 2 <= e < p ==> n % e != 0
    decreases n - d
  {
    p := d;
    if n % d != 0 {
      DivUnique(n, n, 1, 0);
      p := LeastDivisor(n, d + 1);
    }
  }

  /** What is below 1621 squared is prime or has a prime divisor up to 1619. */
  lemma PrimeOrSmallDivisor(n: nat)
    requires 1 < n < 1621 * 1621
    ensures IsPrime(n) || SmallPrimeDivides(n)
  {
    var p := LeastDivisor(n, 2);
    forall e | 2 <= e < p ensures p % e != 0 {
      if p % e == 0 {
        Divisors.DividesTrans(e, p, n);
      }
    }
    if p < n {
      var q := n / p;
      DivMod(n, p);
      Cofactor(n, p, q);
      SquareBelow(p, q, n);
      if p > 1620 {
        SquareMono(1621, p);
        assert false;
      }
      NotPrime1620();
      assert SmallPrime(p);
    }
  }

  lemma NotPrime1620()
    ensures !IsPrime(1620)
  {
    assert 1620 % 2 == 0;
  }

  /** A small prime divides itself. */
  lemma SmallPrimeFacts(a: int)
    requires SmallPrime(a)
    ensures IsPrime(a) && a > 1 && SmallPrimeDivides(a)
  {
    DivUnique(a, a, 1, 0);
    assert a % a == 0;
  }

  /** A number with a small prime divisor is no other prime, and not one. */
  lemma DividedFacts(a: int)
    requires SmallPrimeDivides(Abs(a)) && !SmallPrime(a)
    ensures !IsPrime(a) && a != 1
  {
    var p: nat :| SmallPrime(p) && Abs(a) % p == 0;
    DivUnique(1, p, 0, 1);
  }

  /** A prime divides no smaller number. */
  lemma LargerPrime(a: nat, p: nat)
    requires IsPrime(a) && 0 < p < a
    ensures p % a != 0
  {
    DivUnique(p, a, 0, p);
  }
}
