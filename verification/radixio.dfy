/** mp_toradix and mp_read_radix: printing and parsing in radix 2 to 64. */
module RadixText {
  import opened Arith
  import opened Radix
  import opened MpInts
  import Bits
  import opened Congruences
  import SingleDigit
  import LongDivision
  import DigitDivision
  import DigitAddition

  // ----- characters and digits

  /** mp_s_rmap: 0-9, A-Z, a-z, + and /. */
  function DigitChar(d: nat): char
    requires d < 64
  {
    if d < 10 then ('0' as int + d) as char
    else if d < 36 then ('A' as int + (d - 10)) as char
    else if d < 62 then ('a' as int + (d - 36)) as char
    else if d == 62 then '+' else '/'
  }

  /** The characters of the digits, written out. */
  const DIGIT_MAP: string :=
    "0123456789" + "ABCDEFGHIJKLM" + "NOPQRSTUVWXYZ" + "abcdefghijklm" + "nopqrstuvwxyz" + "+/"

  /** The character of every digit is the one in the map. */
  lemma CharOfMap(d: nat)
    requires d < 64
    ensures |DIGIT_MAP| == 64 && DigitChar(d) == DIGIT_MAP[d]
  {
  }

  /** toupper in the C locale. */
  function ToUpper(ch: char): char {
    if 'a' <= ch <= 'z' then (ch as int - 'a' as int + 'A' as int) as char else ch
  }

  /** The position of ch in the map from y on, 64 if it is not there. */
  function Position(ch: char, y: nat): (p: nat)
    requires y <= 64
    ensures y <= p <= 64
    decreases 64 - y, ch
  {
    if y == 64 || ch == DigitChar(y) then y else Position(ch, y + 1)
  }

  /** The digit that a character stands for: below radix 36 the case does not matter. */
  function DigitOf(ch: char, radix: nat): nat {
    Position(if radix < 36 then ToUpper(ch) else ch, 0)
  }

  lemma {:induction false} PositionOf(d: nat, y: nat)
    requires y <= d < 64
    ensures Position(DigitChar(d), y) == d
    decreases d - y
  {
    if y < d {
      DifferentChars(y, d);
      PositionOf(d, y + 1);
    }
  }

  lemma DifferentChars(x: nat, y: nat)
    requires x < y < 64
    ensures DigitChar(x) != DigitChar(y)
  {
  }

  /** A digit's character stands for the digit, in every radix in which the digit occurs. */
  lemma DigitRoundTrip(d: nat, radix: nat)
    requires d < radix <= 64
    ensures DigitOf(DigitChar(d), radix) == d
  {
    PositionOf(d, 0);
  }

  /** ch is the character of the digit d; below radix 36 a small letter counts as the capital 26 places before it. */
  predicate StandsFor(ch: char, d: nat, radix: nat)
    requires radix <= 64
  {
    MapLength();
    d < radix && (ch == DIGIT_MAP[d] || (radix < 36 && 10 <= d && ch == DIGIT_MAP[d + 26]))
  }

  lemma MapLength()
    ensures |DIGIT_MAP| == 64
  {
  }

  lemma {:induction false} PositionHits(ch: char, y: nat)
    requires y <= 64 && Position(ch, y) < 64
    ensures DigitChar(Position(ch, y)) == ch
    decreases 64 - y
  {
    if ch != DigitChar(y) {
      PositionHits(ch, y + 1);
    }
  }

  /** Folding a small letter to its capital moves it 26 places in the map. */
  lemma FoldedChar(ch: char, d: nat)
    requires d < 36
    ensures ToUpper(ch) == DigitChar(d) <==> ch == DigitChar(d) || (10 <= d && ch == DigitChar(d + 26))
  {
  }

  /** DigitOf finds the digit for which the character stands, if there is one. */
  lemma DigitOfStands(ch: char, d: nat, radix: nat)
    requires radix <= 64
    ensures StandsFor(ch, d, radix) <==> d == DigitOf(ch, radix) && d < radix
  {
    if d < radix {
      var c := if radix < 36 then ToUpper(ch) else ch;
      CharOfMap(d);
      if radix < 36 {
        CharOfMap(d + 26);
        FoldedChar(ch, d);
      }
      if c == DigitChar(d) {
        PositionOf(d, 0);
      } else if Position(c, 0) == d {
        PositionHits(c, 0);
      }
    }
  }

  /** "for (y = 0; y < 64; y++) if (ch == mp_s_rmap[y]) break" */
  method FindDigit(c: char, radix: nat) returns (y: nat)
    ensures y == DigitOf(c, radix)
  {
    var ch := if radix < 36 then ToUpper(c) else c;
    y := 0;
    while y < 64 && ch != DigitChar(y)
      invariant y <= 64 && Position(ch, 0) == Position(ch, y)
    {
      y := y + 1;
    }
  }

  // ----- what the two functions mean

  /** The digits of m, most significant first; nothing for zero. */
  function Numeral(m: nat, radix: nat): string
    requires 2 <= radix <= 64
    decreases m
  {
    if m == 0 then "" else (Shrinks(m, radix); Numeral(m / radix, radix) + [DigitChar(m % radix)])
  }

  lemma Shrinks(m: nat, radix: nat)
    requires m > 0 && radix >= 2
    ensures 0 <= m / radix < m && 0 <= m % radix < radix && m == (m / radix) * radix + m % radix
  {
    DivMod(m, radix);
    var q := m / radix;
    if q < 0 {
      MulMono(q, -1, radix);
    } else {
      MulMono(2, radix, q);
    }
  }

  /** The text that stands for v. */
  function Text(v: int, radix: nat): string
    requires 2 <= radix <= 64
  {
    if v == 0 then "0" else (if v < 0 then "-" else "") + Numeral(Abs(v), radix)
  }

  /** A numeral with one digit more on the right. */
  function Appended(m: nat, y: nat, radix: nat): nat {
    MulMono(0, m, radix);
    m * radix + y
  }

  /** Reading s from position i on, with acc read so far; a character that is no digit of the radix ends it. */
  function ReadFrom(s: string, i: nat, acc: nat, radix: nat): int
    requires i <= |s|
    decreases |s| - i
  {
    if i == |s| || DigitOf(s[i], radix) >= radix then acc
    else ReadFrom(s, i + 1, Appended(acc, DigitOf(s[i], radix), radix), radix)
  }

  /** The number that a text stands for. */
  function ValueOfText(s: string, radix: nat): int {
    if |s| > 0 && s[0] == '-' then -ReadFrom(s, 1, 0, radix) else ReadFrom(s, 0, 0, radix)
  }

  // ----- what the text is, digit by digit

  lemma {:induction false} PowPositive(radix: nat, k: nat)
    requires radix > 0
    ensures Pow(radix, k) > 0
  {
    if k > 0 {
      PowPositive(radix, k - 1);
      MulMono(1, radix, Pow(radix, k - 1));
    }
  }

  /** The digit of m at place k from the right. */
  function DigitAt(m: nat, radix: nat, k: nat): (d: nat)
    requires radix > 0
    ensures d < radix
  {
    PowPositive(radix, k);
    DivMod(m, Pow(radix, k));
    QuotientNat(m, Pow(radix, k));
    DivMod(m / Pow(radix, k), radix);
    (m / Pow(radix, k)) % radix
  }

  lemma QuotientNat(m: nat, p: nat)
    requires p > 0
    ensures m / p >= 0
  {
  }

  /**
   s shows v in the radix: a minus sign if v is negative, then all the digits of its magnitude and no zero before them.
   */
  ghost predicate Shows(s: string, v: int, radix: nat)
    requires 2 <= radix <= 64
  {
    MapLength();
    var from := if v < 0 then 1 else 0;
    && |s| > from && (v < 0 ==> s[0] == '-')
    && (forall k :: 0 <= k < |s| - from ==> s[|s| - 1 - k] == DIGIT_MAP[DigitAt(Abs(v), radix, k)])
    && Abs(v) < Pow(radix, |s| - from)
    && (if v == 0 then |s| == 1 else s[from] != '0')
  }

  /** The character at place k from the right is that of the digit there, and no digit is left out. */
  lemma {:induction false} NumeralAt(m: nat, radix: nat, k: nat)
    requires 2 <= radix <= 64 && k < |Numeral(m, radix)|
    ensures Numeral(m, radix)[|Numeral(m, radix)| - 1 - k] == DigitChar(DigitAt(m, radix, k))
    decreases m
  {
    Shrinks(m, radix);
    var t := Numeral(m / radix, radix);
    assert Numeral(m, radix) == t + [DigitChar(m % radix)];
    if k == 0 {
      assert Pow(radix, 0) == 1;
    } else {
      NumeralAt(m / radix, radix, k - 1);
      PowPositive(radix, k - 1);
      Bits.DivDiv(m, radix, Pow(radix, k - 1));
    }
  }

  lemma {:induction false} NumeralComplete(m: nat, radix: nat)
    requires 2 <= radix <= 64
    ensures m < Pow(radix, |Numeral(m, radix)|)
    decreases m
  {
    if m > 0 {
      Shrinks(m, radix);
      NumeralComplete(m / radix, radix);
      NextPower(m, m / radix, m % radix, radix, Pow(radix, |Numeral(m / radix, radix)|));
    }
  }

  lemma NextPower(m: nat, q: nat, r: nat, radix: nat, p: nat)
    requires m == q * radix + r && r < radix && q < p
    ensures m < radix * p
  {
    MulMono(q + 1, p, radix);
  }

  /** A numeral starts with the character of a digit other than zero. */
  lemma {:induction false} NumeralStarts(m: nat, radix: nat)
    requires 2 <= radix <= 64 && m > 0
    ensures |Numeral(m, radix)| > 0 && Numeral(m, radix)[0] != '-' && Numeral(m, radix)[0] != '0'
    decreases m
  {
    Shrinks(m, radix);
    if m / radix > 0 {
      NumeralStarts(m / radix, radix);
    }
  }

  /** The text of a number shows it. */
  lemma TextShows(v: int, radix: nat)
    requires 2 <= radix <= 64
    ensures Shows(Text(v, radix), v, radix)
  {
    MapLength();
    var s, m := Text(v, radix), Abs(v);
    if v == 0 {
      CharOfMap(0);
      ZeroDigit(radix);
      assert Pow(radix, 1) == radix * Pow(radix, 0);
    } else {
      NumeralStarts(m, radix);
      NumeralComplete(m, radix);
      var from := if v < 0 then 1 else 0;
      forall k | 0 <= k < |s| - from ensures s[|s| - 1 - k] == DIGIT_MAP[DigitAt(m, radix, k)] {
        NumeralAt(m, radix, k);
        CharOfMap(DigitAt(m, radix, k));
      }
    }
  }

  lemma ZeroDigit(radix: nat)
    requires radix > 0
    ensures DigitAt(0, radix, 0) == 0
  {
    assert Pow(radix, 0) == 1;
    DivUnique(0, radix, 0, 0);
  }

  /** The weighted sum of digits, the most significant first. */
  function WeightedSum(digits: seq<nat>, radix: nat): int {
    if digits == [] then 0 else digits[0] * Pow(radix, |digits| - 1) + WeightedSum(digits[1..], radix)
  }

  ghost predicate NoDigit(ch: char, radix: nat)
    requires radix <= 64
  {
    forall d: nat :: !StandsFor(ch, d, radix)
  }

  /** t starts with characters for these digits, and then has no further one. */
  ghost predicate Spells(t: string, digits: seq<nat>, radix: nat)
    requires radix <= 64
  {
    && |digits| <= |t|
    && (forall k :: 0 <= k < |digits| ==> StandsFor(t[k], digits[k], radix))
    && (|digits| < |t| ==> NoDigit(t[|digits|], radix))
  }

  /** After a minus sign, if there is one, s spells these digits, and v is their weighted sum with that sign. */
  ghost predicate Means(s: string, digits: seq<nat>, v: int, radix: nat)
    requires radix <= 64
  {
    var neg := |s| > 0 && s[0] == '-';
    && Spells(s[if neg then 1 else 0..], digits, radix)
    && v == if neg then -WeightedSum(digits, radix) else WeightedSum(digits, radix)
  }

  /** The digits that are read from position i on. */
  function DigitsFrom(s: string, i: nat, radix: nat): seq<nat>
    requires i <= |s|
    decreases |s| - i
  {
    if i == |s| || DigitOf(s[i], radix) >= radix then []
    else [DigitOf(s[i], radix)] + DigitsFrom(s, i + 1, radix)
  }

  lemma {:induction false} DigitsSpelled(s: string, i: nat, radix: nat)
    requires i <= |s| && radix <= 64
    ensures Spells(s[i..], DigitsFrom(s, i, radix), radix)
    decreases |s| - i
  {
    if i < |s| {
      var ch, t := s[i], s[i + 1..];
      assert s[i..] == [ch] + t;
      if DigitOf(ch, radix) < radix {
        DigitOfStands(ch, DigitOf(ch, radix), radix);
        DigitsSpelled(s, i + 1, radix);
        SpellsMore(ch, t, DigitOf(ch, radix), DigitsFrom(s, i + 1, radix), radix);
      } else {
        SpellsNothing(ch, t, radix);
      }
    }
  }

  lemma SpellsNothing(ch: char, t: string, radix: nat)
    requires radix <= 64 && DigitOf(ch, radix) >= radix
    ensures Spells([ch] + t, [], radix)
  {
    forall d: nat ensures !StandsFor(ch, d, radix) {
      DigitOfStands(ch, d, radix);
    }
  }

  lemma SpellsMore(ch: char, t: string, d: nat, rest: seq<nat>, radix: nat)
    requires radix <= 64 && StandsFor(ch, d, radix) && Spells(t, rest, radix)
    ensures Spells([ch] + t, [d] + rest, radix)
  {
    var s, digits := [ch] + t, [d] + rest;
    forall k | 0 <= k < |digits| ensures StandsFor(s[k], digits[k], radix) {
      if k > 0 {
        assert StandsFor(t[k - 1], rest[k - 1], radix);
      }
    }
  }

  /** Reading from left to right gives the weighted sum. */
  lemma {:induction false} ReadIsWeighted(s: string, i: nat, acc: nat, radix: nat)
    requires i <= |s|
    ensures ReadFrom(s, i, acc, radix) ==
            acc * Pow(radix, |DigitsFrom(s, i, radix)|) + WeightedSum(DigitsFrom(s, i, radix), radix)
    decreases |s| - i
  {
    if i < |s| && DigitOf(s[i], radix) < radix {
      var d, rest := DigitOf(s[i], radix), DigitsFrom(s, i + 1, radix);
      ReadIsWeighted(s, i + 1, Appended(acc, d, radix), radix);
      assert ([d] + rest)[1..] == rest;
      ShiftIn(acc, d, radix, Pow(radix, |rest|));
    }
  }

  lemma ShiftIn(acc: nat, d: nat, radix: nat, p: int)
    ensures (acc * radix + d) * p == acc * (radix * p) + d * p
  {
  }

  /** The value of a text is the weighted sum of the digits that it spells. */
  lemma ValueIsWeighted(s: string, radix: nat) returns (digits: seq<nat>)
    requires radix <= 64
    ensures Means(s, digits, ValueOfText(s, radix), radix)
  {
    var i := if |s| > 0 && s[0] == '-' then 1 else 0;
    digits := DigitsFrom(s, i, radix);
    DigitsSpelled(s, i, radix);
    ReadIsWeighted(s, i, 0, radix);
  }

  // ----- the round trip

  lemma NumeralParts(m: nat, radix: nat) returns (q: nat, d: nat)
    requires 2 <= radix <= 64 && m > 0
    ensures q < m && d < radix && Appended(q, d, radix) == m
    ensures Numeral(m, radix) == Numeral(q, radix) + [DigitChar(d)]
  {
    Shrinks(m, radix);
    q, d := m / radix, m % radix;
  }

  lemma ReadStep(s: string, k: nat, q: nat, d: nat, radix: nat)
    requires k < |s| && d < radix <= 64 && s[k] == DigitChar(d)
    ensures ReadFrom(s, k, q, radix) == ReadFrom(s, k + 1, Appended(q, d, radix), radix)
  {
    DigitRoundTrip(d, radix);
  }

  /** A numeral after a prefix of length i reads as its number. */
  lemma {:induction false} ReadNumeral(s: string, i: nat, m: nat, n: nat, radix: nat)
    requires 2 <= radix <= 64 && i <= n <= |s| && s[i..n] == Numeral(m, radix)
    ensures ReadFrom(s, i, 0, radix) == ReadFrom(s, n, m, radix)
    decreases m
  {
    if m > 0 {
      var q, d := NumeralParts(m, radix);
      LastOfSlice(s, i, n, Numeral(q, radix), DigitChar(d));
      ReadNumeral(s, i, q, n - 1, radix);
      ReadStep(s, n - 1, q, d, radix);
    }
  }

  lemma LastOfSlice(s: string, i: nat, n: nat, t: string, c: char)
    requires i <= n <= |s| && s[i..n] == t + [c]
    ensures n - 1 == i + |t| && s[i..n - 1] == t && s[n - 1] == c
  {
    assert s[i..n - 1] == s[i..n][..|t|];
    assert s[n - 1] == s[i..n][|t|];
  }

  /** Parsing what was printed gives the number back, in every radix. */
  lemma RoundTrip(v: int, radix: nat)
    requires 2 <= radix <= 64
    ensures ValueOfText(Text(v, radix), radix) == v
  {
    var s := Text(v, radix);
    if v == 0 {
      DigitRoundTrip(0, radix);
      assert ReadFrom(s, 1, 0, radix) == 0;
    } else if v > 0 {
      NumeralStarts(v, radix);
      assert s == Numeral(v, radix) && s[0..|s|] == s;
      ReadNumeral(s, 0, v, |s|, radix);
    } else {
      assert s[1..|s|] == Numeral(Abs(v), radix);
      ReadNumeral(s, 1, Abs(v), |s|, radix);
    }
  }

  // ----- mp_toradix

  function Reversed(s: string): string {
    if s == [] then [] else Reversed(s[1..]) + [s[0]]
  }

  lemma {:induction false} ReversedAt(s: string, k: nat)
    requires k < |s|
    ensures |Reversed(s)| == |s| && Reversed(s)[k] == s[|s| - 1 - k]
  {
    if |s| > 1 {
      ReversedAt(s[1..], if k < |s| - 1 then k else 0);
    }
  }

  lemma ReversedIs(s: string, t: string)
    requires |t| == |s| && forall k :: 0 <= k < |s| ==> t[k] == s[|s| - 1 - k]
    ensures t == Reversed(s)
  {
    forall k | 0 <= k < |s| ensures |Reversed(s)| == |s| && t[k] == Reversed(s)[k] {
      ReversedAt(s, k);
    }
    if s == [] {
      assert t == [];
    }
  }

  lemma {:induction false} ReversedPush(s: string, c: char)
    ensures Reversed(s + [c]) == [c] + Reversed(s)
  {
    if s == [] {
      assert s + [c] == [c];
    } else {
      assert (s + [c])[1..] == s[1..] + [c];
      ReversedPush(s[1..], c);
    }
  }

  /** bn_reverse, on the len characters from `from` on. */
  method Reverse(s: array<char>, from: nat, len: nat)
    requires from + len <= s.Length
    modifies s
    ensures s[from..from + len] == Reversed(old(s[from..from + len]))
    ensures forall k :: 0 <= k < s.Length && !(from <= k < from + len) ==> s[k] == old(s[k])
  {
    ghost var o := s[..];
    var ix, iy: int := from, from + len - 1;
    ghost var mirror := ix + iy;
    while ix < iy
      invariant from <= ix && ix + iy == mirror && ix <= iy + 2
      invariant forall p :: from <= p < ix ==> s[p] == o[mirror - p]
      invariant forall p :: iy < p < from + len ==> s[p] == o[mirror - p]
      invariant forall p :: ix <= p <= iy ==> s[p] == o[p]
      invariant forall k :: 0 <= k < s.Length && !(from <= k < from + len) ==> s[k] == o[k]
    {
      var t := s[ix];
      s[ix] := s[iy];
      s[iy] := t;
      ix, iy := ix + 1, iy - 1;
    }
    MirrorReverses(o, s[..], from, len);
  }

  lemma MirrorReverses(o: string, s: string, from: nat, len: nat)
    requires from + len <= |s| == |o| && forall p :: from <= p < from + len ==> s[p] == o[2 * from + len - 1 - p]
    ensures s[from..from + len] == Reversed(o[from..from + len])
  {
    var was, now := o[from..from + len], s[from..from + len];
    forall k | 0 <= k < len ensures now[k] == was[len - 1 - k] {
      assert now[k] == s[from + k];
    }
    ReversedIs(was, now);
  }

  /** One more digit, printed last, comes first in the numeral. */
  lemma NumeralGrows(m: nat, radix: nat, done: string)
    requires 2 <= radix <= 64 && m > 0
    ensures 0 <= m / radix < m && 0 <= m % radix < radix
    ensures Numeral(m, radix) + Reversed(done) == Numeral(m / radix, radix) + Reversed(done + [DigitChar(m % radix)])
  {
    Shrinks(m, radix);
    ReversedPush(done, DigitChar(m % radix));
  }

  /** The digit loop: the digits of t, least significant first, from position at on. */
  method PrintDigits(t: MpInt, str: array<char>, at: nat, radix: nat) returns (digs: nat)
    requires t.Valid() && !t.neg && 2 <= radix <= 64 && at + |Numeral(t.Mag(), radix)| <= str.Length
    modifies t, str
    ensures digs == |Numeral(old(t.Mag()), radix)| && at + digs <= str.Length
    ensures Reversed(str[at..at + digs]) == Numeral(old(t.Mag()), radix)
    ensures forall k :: 0 <= k < at ==> str[k] == old(str[k])
  {
    ghost var all := Numeral(t.Mag(), radix);
    digs := 0;
    MagBounds(t);
    while t.used != 0
      invariant t.Valid() && !t.neg && (t.used == 0 <==> t.Mag() == 0)
      invariant at + digs + |Numeral(t.Mag(), radix)| <= str.Length
      invariant Numeral(t.Mag(), radix) + Reversed(str[at..at + digs]) == all
      invariant forall k :: 0 <= k < at ==> str[k] == old(str[k])
      decreases t.Mag()
    {
      ghost var m, done := t.Mag(), str[at..at + digs];
      NumeralGrows(m, radix, done);
      var ok, d := DigitDivision.DivD(t, radix, t);
      MagBounds(t);
      str[at + digs] := DigitChar(d);
      digs := digs + 1;
      assert str[at..at + digs] == done + [DigitChar(d)];
    }
    ReversedLength(str[at..at + digs]);
  }

  lemma ReversedLength(s: string)
    ensures |Reversed(s)| == |s|
  {
    if s != [] {
      ReversedAt(s, 0);
    }
  }

  /** The body of mp_toradix, for a radix in range. */
  method WriteText(a: MpInt, str: array<char>, radix: nat) returns (ghost n: nat)
    requires a.Valid() && 2 <= radix <= 64 && |Text(a.Value(), radix)| < str.Length
    modifies str
    ensures n < str.Length && str[..n] == Text(a.Value(), radix) && str[n] == '\0'
  {
    MagBounds(a);
    n := |Text(a.Value(), radix)|;
    if a.used == 0 {
      str[0] := '0';
      str[1] := '\0';
      return;
    }
    var t := LongDivision.CopyMagnitude(a);
    var at := 0;
    if a.neg {
      str[0] := '-';
      at := 1;
    }
    var digs := PrintDigits(t, str, at, radix);
    ghost var printed := str[at..at + digs];
    Reverse(str, at, digs);
    str[at + digs] := '\0';
    assert str[at..at + digs] == Numeral(a.Mag(), radix);
    assert str[..n] == str[..at] + str[at..at + digs];
  }

  /**
   mp_toradix, into a buffer that has room for the text and its terminator.  False is MP_VAL: a radix out of range.
   */
  method ToRadix(a: MpInt, str: array<char>, radix: nat) returns (ok: bool, ghost n: nat)
    requires a.Valid() && (2 <= radix <= 64 ==> |Text(a.Value(), radix)| < str.Length)
    modifies str
    ensures ok == (2 <= radix <= 64)
    ensures ok ==> n < str.Length && str[..n] == Text(a.Value(), radix) && str[n] == '\0'
    ensures ok ==> Shows(str[..n], a.Value(), radix)
  {
    if radix < 2 || radix > 64 {
      return false, 0;
    }
    n := WriteText(a, str, radix);
    TextShows(a.Value(), radix);
    ok := true;
  }

  // ----- mp_read_radix

  /** "mp_mul_d (a, radix, a)" and "mp_add_d (a, y, a)" */
  method AppendDigit(a: MpInt, y: nat, radix: nat)
    requires a.Valid() && !a.neg && a.Clean() && 2 <= radix <= 64 && y < radix
    modifies a
    ensures a.Valid() && !a.neg && a.Clean() && a.Mag() == Appended(old(a.Mag()), y, radix)
  {
    ghost var m := a.Mag();
    SingleDigit.MulD(a, radix, a);
    MagBounds(a);
    MulMono(0, m, radix);
    DigitAddition.AddD(a, y, a);
    MagBounds(a);
  }

  /** The digit loop of mp_read_radix, from position `from` on. */
  method ReadDigits(a: MpInt, s: string, from: nat, radix: nat)
    requires a.Valid() && !a.neg && a.Clean() && a.Mag() == 0 && 2 <= radix <= 64 && from <= |s|
    modifies a
    ensures a.Valid() && !a.neg && a.Mag() == ReadFrom(s, from, 0, radix)
  {
    var i, more := from, true;
    while i < |s| && more
      invariant i <= |s| && a.Valid() && !a.neg && a.Clean() && Reads(s, from, i, a.Mag(), radix, more)
    {
      ghost var m := a.Mag();
      more := ReadOne(a, s, i, radix);
      ReadsOn(s, from, i, m, a.Mag(), radix, more);
      i := i + 1;
    }
    ReadEnd(s, a.Mag(), radix);
  }

  /** From m, the rest of the text gives what the whole text gives; or m is that already. */
  ghost predicate Reads(s: string, from: nat, i: nat, m: nat, radix: nat, more: bool)
    requires from <= |s| && i <= |s|
  {
    (if more then ReadFrom(s, i, m, radix) else m) == ReadFrom(s, from, 0, radix)
  }

  lemma ReadsOn(s: string, from: nat, i: nat, m: nat, m': nat, radix: nat, more: bool)
    requires from <= |s| && i < |s| && Reads(s, from, i, m, radix, true)
    requires ReadFrom(s, i, m, radix) == if more then ReadFrom(s, i + 1, m', radix) else m'
    ensures Reads(s, from, i + 1, m', radix, more)
  {
  }

  lemma ReadEnd(s: string, m: nat, radix: nat)
    ensures ReadFrom(s, |s|, m, radix) == m
  {
  }

  /** The body of that loop; false when the character is no digit, which ends it. */
  method ReadOne(a: MpInt, s: string, i: nat, radix: nat) returns (more: bool)
    requires a.Valid() && !a.neg && a.Clean() && 2 <= radix <= 64 && i < |s|
    modifies a
    ensures a.Valid() && !a.neg && a.Clean()
    ensures ReadFrom(s, i, old(a.Mag()), radix) == if more then ReadFrom(s, i + 1, a.Mag(), radix) else a.Mag()
  {
    var y := FindDigit(s[i], radix);
    more := y < radix;
    if more {
      AppendDigit(a, y, radix);
    }
  }

  /** The body of mp_read_radix, for a radix in range: an optional minus sign and the digits. */
  method ReadText(a: MpInt, s: string, radix: nat)
    requires a.Valid() && !a.neg && a.Clean() && a.Mag() == 0 && 2 <= radix <= 64
    modifies a
    ensures a.Valid() && a.Value() == ValueOfText(s, radix)
  {
    var neg, i := false, 0;
    if |s| > 0 && s[0] == '-' {
      neg, i := true, 1;
    }
    ReadDigits(a, s, i, radix);
    MagBounds(a);
    if a.used != 0 {
      a.neg := neg;
    }
  }

  /** mp_read_radix.  Reading stops at the first character that is no digit, without an error; false is MP_VAL. */
  method ReadRadix(a: MpInt, s: string, radix: nat) returns (ok: bool, ghost digits: seq<nat>)
    modifies a
    ensures a.Valid() && ok == (2 <= radix <= 64)
    ensures ok ==> a.Value() == ValueOfText(s, radix)
    ensures ok ==> Means(s, digits, a.Value(), radix)
    ensures !ok ==> a.Value() == 0
  {
    a.Zero();
    ValZeros(a.dp, 0, a.used);
    ok, digits := 2 <= radix <= 64, [];
    if ok {
      ReadText(a, s, radix);
      digits := ValueIsWeighted(s, radix);
    }
  }
}
