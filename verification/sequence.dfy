/** bdSequenceNumber: 16-bit numbers on the wire, unrolled to the integer nearest a reference. */
module SequenceNumbers {
  import opened Arith

  const RANGE: int := 0x1_0000       // 2 << (bits - 1) for 16 bits
  const HALF: int := 0x8000

  /**
   The integer that stands for wire near last: congruent to it and at most half a range away; at exactly half a range
   the one in last's own range.  While nothing has been received, the reference is -1 and wire stands for itself.
   */
  function Unrolled(last: int, wire: nat): int {
    if last < 0 then wire
    else
      var d := (wire - last) % RANGE;
      if d < HALF || (d == HALF && wire > last % RANGE) then last + d else last + d - RANGE
  }

  /** bdSequenceNumber::set, with 16 bits and a reference of at least -1. */
  method Set(last: int, seqNumber: nat) returns (m: int)
    requires last >= -1 && seqNumber < RANGE
    ensures m == Unrolled(last, seqNumber)
  {
    // the remainder of C, which is negative for -1
    var lastSeq := if last < 0 then last else last % RANGE;
    var lastRangeBase := last - lastSeq;
    var curSeq := seqNumber % RANGE;
    if lastSeq >= 0 {
      if lastSeq == curSeq {
        Wraps(last, seqNumber, 0);
        m := last;
      } else {
        var lastGreater, lastLess := true, true;
        if lastSeq >= curSeq || curSeq - lastSeq >= RANGE / 2 {
          lastGreater := false;
          if lastSeq > curSeq {
            lastGreater := lastSeq - curSeq > RANGE / 2;
          }
        }
        if lastSeq >= curSeq || curSeq - lastSeq <= RANGE / 2 {
          lastLess := false;
          if lastSeq > curSeq {
            lastLess := lastSeq - curSeq < RANGE / 2;
          }
        }
        var rangeChange := 0;
        if !lastLess || lastSeq <= curSeq {
          if lastLess && lastSeq < curSeq {
            rangeChange := -1;
          } else if lastGreater && lastSeq > curSeq {
            rangeChange := 1;
          }
        }
        Wraps(last, seqNumber, if curSeq < lastSeq then RANGE else 0);
        m := curSeq + rangeChange * RANGE + lastRangeBase;
      }
    } else {
      m := seqNumber;
    }
  }

  lemma Wraps(last: int, wire: nat, lift: int)
    requires last >= 0 && wire < RANGE && lift == (if wire < last % RANGE then RANGE else 0)
    ensures (wire - last) % RANGE == wire - last % RANGE + lift
  {
    DivMod(last, RANGE);
    DivUnique(wire - last, RANGE, -(last / RANGE) - (if lift == 0 then 0 else 1), wire - last % RANGE + lift);
  }

  /** The unrolled number has the wire number's residue, and nothing with that residue is nearer. */
  lemma UnrolledIsNearest(last: int, wire: nat)
    requires last >= 0 && wire < RANGE
    ensures Unrolled(last, wire) % RANGE == wire && Abs(Unrolled(last, wire) - last) <= HALF
    ensures forall t: int :: t % RANGE == wire ==> Abs(Unrolled(last, wire) - last) <= Abs(t - last)
  {
    Wraps(last, wire, if wire < last % RANGE then RANGE else 0);
    var m := Unrolled(last, wire);
    forall t: int | t % RANGE == wire ensures Abs(m - last) <= Abs(t - last) {
      Nearer(m, t, last);
    }
  }

  /** Of two that are equally near, it is the one in the range of the reference. */
  lemma TieInRange(last: int, wire: nat)
    requires last >= 0 && wire < RANGE && Abs(Unrolled(last, wire) - last) == HALF
    ensures Unrolled(last, wire) / RANGE == last / RANGE
  {
    Wraps(last, wire, if wire < last % RANGE then RANGE else 0);
    DivMod(last, RANGE);
    DivUnique(Unrolled(last, wire), RANGE, last / RANGE, wire);
  }

  lemma Nearer(m: int, t: int, last: int)
    requires m % RANGE == t % RANGE && Abs(m - last) <= HALF
    ensures Abs(m - last) <= Abs(t - last)
  {
    DivMod(m, RANGE);
    DivMod(t, RANGE);
  }

  /** Close enough for the wire number to be unrolled to t. */
  predicate Near(last: int, t: int) {
    0 <= t && if last < 0 then t < RANGE else Abs(t - last) < HALF
  }

  lemma UnrollsTrue(last: int, t: int)
    requires Near(last, t)
    ensures Unrolled(last, t % RANGE) == t
  {
    if last < 0 {
      DivUnique(t, RANGE, 0, t);
    } else {
      UnrolledIsNearest(last, t % RANGE);
      SameResidue(Unrolled(last, t % RANGE), t, last);
    }
  }

  lemma SameResidue(m: int, t: int, last: int)
    requires m % RANGE == t % RANGE && Abs(m - last) <= HALF && Abs(t - last) < HALF
    ensures m == t
  {
    DivMod(m, RANGE);
    DivMod(t, RANGE);
  }
}
