/** The digit count of a number, and the thirds and halves that the divide-and-conquer products cut it into. */
module DigitCounts {
  import opened Arith
  import opened Radix
  import opened MpInts
  import Bits

  /** How many digits a clamped record of magnitude m has in use. */
  function NumDigits(m: nat): nat {
    if m == 0 then 0 else 1 + NumDigits(m / BASE)
  }

  lemma {:induction false} NumDigitsBelow(m: nat, n: nat)
    ensures NumDigits(m) <= n <==> m < W(n)
  {
    if m > 0 && n > 0 {
      NumDigitsBelow(m / BASE, n - 1);
      DivMod(m, BASE);
      BaseBelow(m, W(n - 1));
    }
  }

  lemma BaseBelow(m: nat, w: nat)
    ensures m / BASE < w <==> m < BASE * w
  {
  }

  lemma UsedIsNumDigits(a: MpInt)
    requires a.Clamped()
    ensures a.used == NumDigits(a.Mag())
  {
    UsedBelow(a, NumDigits(a.Mag()));
    NumDigitsBelow(a.Mag(), NumDigits(a.Mag()));
    UsedBelow(a, a.used);
    NumDigitsBelow(a.Mag(), a.used);
  }

  function Signed(neg: bool, m: nat): int {
    if neg then -(m as int) else m
  }

  // ----- thirds: a == Low + Mid * W(n) + High * W(2n), all with a's sign

  function LowDigits(m: nat, n: nat): nat {
    m % W(n)
  }

  function MidDigits(m: nat, n: nat): nat {
    m / W(n) % W(n)
  }

  function HighDigits(m: nat, n: nat): nat {
    m / W(2 * n)
  }

  function Low(a: int, n: nat): int {
    Signed(a < 0, LowDigits(Abs(a), n))
  }

  function Mid(a: int, n: nat): int {
    Signed(a < 0, MidDigits(Abs(a), n))
  }

  function High(a: int, n: nat): int {
    Signed(a < 0, HighDigits(Abs(a), n))
  }

  lemma ThirdsMakeUp(a: int, n: nat)
    ensures a == Low(a, n) + Mid(a, n) * W(n) + High(a, n) * W(2 * n)
  {
    var m, w := Abs(a), W(n);
    WAdd(n, n);
    DivMod(m, w);
    DivMod(m / w, w);
    Bits.DivDiv(m, w, w);
    MakeUp(m, w, m % w, m / w % w, m / W(2 * n), m / w, W(2 * n));
    SignedTerm(m / w % w, w);
    SignedTerm(m / W(2 * n), W(2 * n));
  }

  lemma MakeUp(m: int, w: int, lo: int, mid: int, hi: int, q: int, ww: int)
    requires m == q * w + lo && q == hi * w + mid && ww == w * w
    ensures m == lo + mid * w + hi * ww
  {
    assert (hi * w + mid) * w == hi * (w * w) + mid * w;
  }

  /** The size of the parts. */
  lemma ThirdSizes(a: int, n: nat)
    requires n > 0 && 3 * n <= NumDigits(Abs(a))
    ensures NumDigits(Abs(Low(a, n))) <= n && NumDigits(Abs(Mid(a, n))) <= n
    ensures NumDigits(Abs(High(a, n))) == NumDigits(Abs(a)) - 2 * n
    ensures Abs(High(a, n)) >= W(n - 1)
  {
    var m, d := Abs(a), NumDigits(Abs(a));
    NumDigitsBelow(m % W(n), n);
    NumDigitsBelow(m / W(n) % W(n), n);
    NumDigitsBelow(m, d);
    NumDigitsBelow(m, d - 1);
    WAdd(2 * n, d - 2 * n);
    WAdd(2 * n, d - 1 - 2 * n);
    TopPart(m, W(2 * n), W(d - 2 * n), W(d - 1 - 2 * n));
    NumDigitsBelow(m / W(2 * n), d - 2 * n);
    NumDigitsBelow(m / W(2 * n), d - 1 - 2 * n);
    WMono(n - 1, d - 1 - 2 * n);
  }

  lemma TopPart(m: nat, w: nat, p: nat, q: nat)
    requires w > 0 && w * q <= m < w * p
    ensures q <= m / w < p
  {
    DivMod(m, w);
    if m / w >= p {
      MulMono(p, m / w, w);
    } else if m / w < q {
      MulMono(m / w + 1, q, w);
    }
  }

  /** The parts of one number never have opposite signs. */
  lemma ThirdSigns(a: int, n: nat)
    ensures a >= 0 ==> Low(a, n) >= 0 && Mid(a, n) >= 0 && High(a, n) >= 0
    ensures a <= 0 ==> Low(a, n) <= 0 && Mid(a, n) <= 0 && High(a, n) <= 0
  {
  }
}
