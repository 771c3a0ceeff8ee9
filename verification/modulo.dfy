/** mp_mod and mp_mulmod: residues on top of the long division. */
module Modulo {
  import opened Arith
  import opened MpInts
  import AddSub
  import LongDivision
  import Multiply
  import ToomThree
  import Product

  lemma EuclideanFromTruncated(a: int, b: int)
    requires b != 0
    ensures a % Abs(b) == if TRem(a, b) < 0 then TRem(a, b) + Abs(b) else TRem(a, b)
  {
    TDivisionHolds(a, b);
    var q, r := TQuot(a, b), TRem(a, b);
    var qd := if b < 0 then -q else q;
    SignedTerm(q, b);
    Distribute(qd, -1, Abs(b));
    if r < 0 {
      DivUnique(a, Abs(b), qd - 1, r + Abs(b));
    } else {
      DivUnique(a, Abs(b), qd, r);
    }
  }

  /**
   mp_mod: the residue in [0, b) for b > 0, whatever the sign of a; a negative b gives the one in [b, 0).  False is
   MP_VAL.  c may be a or b.
   */
  method Mod(a: MpInt, b: MpInt, c: MpInt) returns (ok: bool)
    requires a.Valid() && b.Valid() && c.Valid()
    modifies c
    ensures ok == (old(b.Mag()) != 0) && c.Valid()
    ensures ok && !old(b.neg) ==> c.Value() == old(a.Value()) % old(b.Value()) && !c.neg
    ensures ok && old(b.neg) ==> c.Value() == old(a.Value()) % old(b.Mag()) - old(b.Mag())
    ensures !ok ==> c.Value() == old(c.Value())
    ensures old(c.Clean()) ==> c.Clean()
    ensures ok && !old(b.neg) ==> ZeroReads(c)
  {
    MagBounds(b);
    var t := new MpInt();
    ok := LongDivision.Div(a, b, null, t);
    if !ok {
      return false;
    }
    EuclideanFromTruncated(a.Value(), b.Value());
    MagBounds(t);
    if t.neg != b.neg {
      AddSub.Add(b, t, c);
    } else {
      Move(t, c);
    }
    MagBounds(c);
  }

  /** mp_mulmod: d = a * b mod c, for the product that mp_mul makes of a and b. */
  method MulMod(a: MpInt, b: MpInt, c: MpInt, d: MpInt) returns (ok: bool)
    requires a.Valid() && b.Valid() && c.Valid() && d.Valid()
    modifies d
    ensures ok == (old(c.Mag()) != 0) && d.Valid()
    ensures ok && !old(c.neg) ==>
              d.Value() == ToomThree.Times(old(a.Value()), old(b.Value())) % old(c.Value()) && !d.neg
    ensures ok && old(c.neg) ==>
              d.Value() == ToomThree.Times(old(a.Value()), old(b.Value())) % old(c.Mag()) - old(c.Mag())
    ensures old(d.Clean()) ==> d.Clean()
  {
    var t := new MpInt();
    var word := Multiply.AnyWord();
    Product.Mul(a, b, t, word);
    ok := Mod(t, c, d);
  }
}
