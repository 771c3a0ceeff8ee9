/**
 mp_sqrt: Newton's iteration, stopped by comparing the new iterate with the quotient that the old one gave.  Started at
 the root s of s^2 + 2s it would end at s + 1; the proof shows that it never starts or passes there.
 */
module SquareRoot {
  import opened Arith
  import opened Radix
  import opened MpInts
  import AddSub
  import Bits
  import LongDivision

  /** s is the integer square root of n. */
  ghost predicate IsRoot(s: nat, n: nat) {
    s * s <= n < (s + 1) * (s + 1)
  }

  lemma {:induction false} RootExists(n: nat) returns (s: nat)
    ensures IsRoot(s, n)
  {
    if n == 0 {
      s := 0;
    } else {
      s := RootExists(n - 1);
      if n >= (s + 1) * (s + 1) {
        s := s + 1;
        assert (s + 1) * (s + 1) == s * s + 2 * s + 1;
      }
    }
  }

  lemma RootUnique(s: nat, t: nat, n: nat)
    requires IsRoot(s, n) && IsRoot(t, n)
    ensures s == t
  {
    if s < t {
      SquareOrder(s + 1, t);
    } else if t < s {
      SquareOrder(t + 1, s);
    }
  }

  lemma SquareOrder(x: nat, y: nat)
    requires x <= y
    ensures x * x <= y * y
  {
    MulMono(x, y, x);
    MulMono(x, y, y);
  }

  /** One step from t, by way of the quotient. */
  function Iterate(t: nat, n: nat): int
    requires t > 0
  {
    (t + n / t) / 2
  }

  lemma QuotientAtLeast(n: nat, t: nat, q: int)
    requires t > 0 && q * t <= n
    ensures n / t >= q
  {
    DivMod(n, t);
    if n / t < q {
      MulMono(n / t + 1, q, t);
      Distribute(n / t, 1, t);
    }
  }

  /** An iterate is never below the root. */
  lemma IterateAbove(t: nat, n: nat, s: nat)
    requires t > 0 && s * s <= n
    ensures Iterate(t, n) >= s
  {
    assert (2 * s - t) * t <= s * s by {
      assert (s - t) * (s - t) == s * s - (2 * s - t) * t;
      SquarePositive(s - t);
    }
    QuotientAtLeast(n, t, 2 * s - t);
  }

  lemma SquarePositive(x: int)
    ensures x * x >= 0
  {
    if x >= 0 {
      MulMono(0, x, x);
    } else {
      MulMono(0, -x, -x);
      SignedTerm(x, x);
    }
  }

  /** For n = u^2 - 1, only u itself is sent below u. */
  lemma IterateAtEdge(t: nat, n: nat, u: nat)
    requires t > 0 && n == u * u - 1 && t != u
    ensures Iterate(t, n) >= u
  {
    assert (2 * u - t) * t <= u * u - 1 by {
      assert (u - t) * (u - t) == u * u - (2 * u - t) * t;
      SquareAtLeastOne(u - t);
    }
    QuotientAtLeast(n, t, 2 * u - t);
  }

  lemma SquareAtLeastOne(x: int)
    requires x != 0
    ensures x * x >= 1
  {
    if x > 0 {
      MulMono(1, x, x);
    } else {
      MulMono(1, -x, -x);
      SignedTerm(x, x);
    }
  }

  /** The start value, a quotient of n by some w, is never u when n = u^2 - 1. */
  lemma StartNotEdge(n: nat, w: nat, u: nat)
    requires w > 0 && n == u * u - 1 && u > 0
    ensures n / w != u
  {
    DivMod(n, w);
    assert (w + 1) * (u + 1) == u * w + w + u + 1 && u * (u + 1) == u * u + u && w * u == u * w;
    if w >= u {
      MulMono(u, w, u);
    } else {
      MulMono(w + 1, u, u + 1);
    }
  }

  /** What holds of the iterate at the top of the loop. */
  ghost predicate LoopTop(t: nat, n: nat, s: nat) {
    t > 0 && IsRoot(s, n) && t >= s && (n == s * s + 2 * s ==> t != s)
  }

  lemma EdgeIs(s: nat, n: nat)
    requires n == s * s + 2 * s
    ensures n == (s + 1) * (s + 1) - 1
  {
  }

  /** The first iterate fits the loop. */
  lemma FirstIterate(n: nat, w: nat, s: nat)
    requires n > 0 && w > 0 && n / w > 0 && IsRoot(s, n)
    ensures LoopTop(Iterate(n / w, n), n, s)
  {
    var t := n / w;
    IterateAbove(t, n, s);
    if s == 0 {
      assert false;
    }
    if n == s * s + 2 * s {
      EdgeIs(s, n);
      StartNotEdge(n, w, s + 1);
      IterateAtEdge(t, n, s + 1);
    }
  }

  /** Above the root, the quotient is smaller than the iterate. */
  lemma QuotientBelow(t: nat, n: nat, s: nat)
    requires IsRoot(s, n) && t > s
    ensures n / t < t
  {
    SquareOrder(s + 1, t);
    DivMod(n, t);
    if n / t >= t {
      MulMono(t, n / t, t);
    }
  }

  /** If the loop goes on, its invariant holds again and the iterate has become smaller. */
  lemma LoopGoesOn(t: nat, n: nat, s: nat)
    requires LoopTop(t, n, s) && Iterate(t, n) > n / t
    ensures LoopTop(Iterate(t, n), n, s) && Iterate(t, n) < t
  {
    IterateAbove(t, n, s);
    if t == s {
      QuotientAtLeast(n, t, s);
    } else {
      QuotientBelow(t, n, s);
      RootPositive(n, s, t);
      if n == s * s + 2 * s {
        EdgeIs(s, n);
        if t == s + 1 {
          EdgeQuotient(n, s);
        } else {
          IterateAtEdge(t, n, s + 1);
        }
      }
    }
  }

  lemma RootPositive(n: nat, s: nat, t: nat)
    requires IsRoot(s, n) && t > 0 && Iterate(t, n) > n / t && Iterate(t, n) >= s
    ensures Iterate(t, n) > 0
  {
    DivMod(n, t);
    if n / t < 0 {
      MulMono(n / t, -1, t);
    }
  }

  lemma EdgeQuotient(n: nat, s: nat)
    requires n == s * s + 2 * s
    ensures n / (s + 1) == s
  {
    assert n == s * (s + 1) + s;
    DivUnique(n, s + 1, s, s);
  }

  /** If it stops, it has found the root. */
  lemma LoopStops(t: nat, n: nat, s: nat)
    requires LoopTop(t, n, s) && Iterate(t, n) <= n / t
    ensures Iterate(t, n) == s
  {
    if t == s {
      RootQuotient(n, s);
    } else {
      QuotientBelow(t, n, s);
      StopsAbove(t, n, s, n / t);
    }
  }

  lemma RootQuotient(n: nat, s: nat)
    requires IsRoot(s, n) && s > 0 && n != s * s + 2 * s
    ensures s <= n / s <= s + 1
  {
    QuotientAtLeast(n, s, s);
    DivMod(n, s);
    assert (s + 1) * (s + 1) == s * s + 2 * s + 1;
    if n / s >= s + 2 {
      MulMono(s + 2, n / s, s);
      Distribute(s, 2, s);
    }
  }

  lemma StopsAbove(t: nat, n: nat, s: nat, q: int)
    requires IsRoot(s, n) && t > s && q == n / t && q < t && (t + q) / 2 <= q
    ensures q >= 0 && (t + q) / 2 == q == s
  {
    assert t == q + 1;
    DivMod(n, t);
    assert q * (q + 1) == q * q + q;
    RootUnique(q, s, n) by {
      SquareOrder(s + 1, t);
    }
  }

  // ----- the method

  /** "t2 = arg / t1", "t1 = t1 + t2", "t1 = t1 / 2" */
  method Newton(arg: MpInt, t1: MpInt, t2: MpInt)
    requires arg.Valid() && t1.Valid() && t2.Valid() && !arg.neg && !t1.neg && t1.Mag() > 0
    requires arg != t1 && arg != t2 && t1 != t2
    modifies t1, t2
    ensures t1.Valid() && t2.Valid() && !t1.neg && !t2.neg
    ensures t2.Mag() == arg.Mag() / old(t1.Mag()) && t1.Mag() == Iterate(old(t1.Mag()), arg.Mag())
  {
    ghost var t, n := t1.Mag(), arg.Mag();
    var ok := LongDivision.Div(arg, t1, t2, null);
    QuotientAtLeast(n, t, 0);
    MagBounds(t2);
    AddSub.Add(t1, t2, t1);
    MagBounds(t1);
    Bits.Div2(t1, t1);
  }

  /** mp_sqrt: the integer square root; false is MP_VAL, for a negative number.  ret may be arg. */
  method Sqrt(arg: MpInt, ret: MpInt) returns (ok: bool)
    requires arg.Valid() && ret.Valid()
    modifies ret
    ensures ok == (old(arg.Value()) >= 0) && ret.Valid()
    ensures ok ==> !ret.neg && IsRoot(ret.Mag(), old(arg.Mag()))
  {
    MagBounds(arg);
    if arg.neg {
      return false;
    }
    if arg.used == 0 {
      ret.Zero();
      return true;
    }
    ghost var s := RootExists(arg.Mag());
    var t1, t2 := StartIteration(arg, s);
    NewtonLoop(arg, t1, t2, s);
    Move(t1, ret);
    return true;
  }

  /** "First approx.  (not very bad for large arg)", and the step before the loop. */
  method StartIteration(arg: MpInt, ghost s: nat) returns (t1: MpInt, t2: MpInt)
    requires arg.Valid() && !arg.neg && arg.used > 0 && IsRoot(s, arg.Mag())
    ensures fresh(t1) && fresh(t2) && t1 != t2 && t1.Valid() && t2.Valid() && !t1.neg && !t2.neg
    ensures LoopTop(t1.Mag(), arg.Mag(), s)
  {
    MagBounds(arg);
    t1 := LongDivision.CopyMagnitude(arg);
    t2 := new MpInt();
    StartPositive(arg.Mag(), arg.used);
    Rshd(t1, t1.used / 2);
    FirstIterate(arg.Mag(), W(arg.used / 2), s);
    Newton(arg, t1, t2);
  }

  lemma StartPositive(n: nat, used: nat)
    requires used > 0 && n >= W(used - 1)
    ensures n / W(used / 2) > 0
  {
    WMono(used / 2, used - 1);
    QuotientAtLeast(n, W(used / 2), 1);
  }

  /** The do-while loop. */
  method NewtonLoop(arg: MpInt, t1: MpInt, t2: MpInt, ghost s: nat)
    requires arg.Valid() && t1.Valid() && t2.Valid() && !arg.neg && !t1.neg && !t2.neg
    requires arg != t1 && arg != t2 && t1 != t2 && LoopTop(t1.Mag(), arg.Mag(), s)
    modifies t1, t2
    ensures t1.Valid() && !t1.neg && t1.Mag() == s
  {
    ghost var n := arg.Mag();
    var again := true;
    while again
      invariant t1.Valid() && t2.Valid() && !t1.neg && !t2.neg
      invariant if again then LoopTop(t1.Mag(), n, s) else t1.Mag() == s
      decreases again, t1.Mag()
    {
      ghost var t := t1.Mag();
      Newton(arg, t1, t2);
      var r := CmpMag(t1, t2);
      again := r == 1;
      if again {
        LoopGoesOn(t, n, s);
      } else {
        LoopStops(t, n, s);
      }
    }
  }
}
