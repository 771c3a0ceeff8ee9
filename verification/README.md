# LibTomMath and the reliable receive window, verified

A Dafny 4.11 model of two parts of this repository, with proofs of what they compute:

* the big-integer library under `externals/libtommath`, from its carry loops up to modular powers and primality;
* the reliable receive window of the connection layer, `src/bdConnection/bdReliableReceiveWindow.cpp`, with the
  sequence numbers of `src/bdCore/bdContainers/bdSequenceNumber.cpp`.

`dafny verify dfyconfig.toml` checks the whole project.  Every file holds one module.

## How the integers are modelled

A big integer is an object of class `MpInt` with the source's fields: a sign, the number `used` of significant digits,
and the digit buffer `dp`, whose length is `alloc`.  All operations change these objects in place, with the source's
loops, branches and aliasing (a destination may be an operand wherever the source allows it).  `Mag()` and `Value()` are
the magnitude and the signed value; `Valid()` is what mp_clamp establishes (no leading zeros, no negative zero), and
`Clean()` says that the buffer is zero above `used`.  The two are separate because fast_s_mp_mul_digs copies one word
that it never wrote (`bn_fast_s_mp_mul_digs.c:90`).  That word is a parameter `word` of the products, any 32-bit value,
and contracts say where it ends up.  The exponentiators take a whole `Words`: one word for every product they may ask
for, so a statement for all `Words` covers every content of the local array.  `PowerMachine.Quiet` says that the words
which the products of a run copy, and its reduction counts, are all zero; the others do not matter.

The numbers are those of the default configuration (`tommath.h:87-108`) with a 32-bit `unsigned long`: 28 bits in each
digit, 32-bit digits, 64-bit accumulators, 512 comba columns, and the cutoffs 80, 120, 350 and 400 of
`bncore.c`.  Wrap-around is written out, and every accumulator of a comba loop is proved not to wrap under the guard
that selects the loop.  Temporaries are fresh objects.  Where the source exchanges a temporary with its destination, or
copies structs around in mp_exteuclid, the model moves the fields or renames the variables.  The reduction pointer of
the two exponentiators is a value of the datatype `Redux`, so that their common window machine is written once.

The layers, each resting on the contracts of those before it:

* radix arithmetic and the carry loops: `radix`, `arith`, `mpint`, `addsub`, `digits`, `bits`, `adddigit`, `divdigit`;
* products by columns and rows: `columns`, `mul`, `sqr`;
* fast algorithms against the simple ones: `div` (long division), `montgomery`, `barrett`, `reduce2k`, `digitcount`,
  `toom` and `product` (Karatsuba and Toom-3);
* number theory: `congruence`, `divisors`, `modulo`, `gcd`, `invmod`, `sqrt`, `powermachine`, `powerlaws`, `exptmod`,
  `powermod`, `fermat`, `strongtest`, `primeentries`, `primetab`, `prime`; and text in `radixio`.

Where the code can be wrong, its methods are proved against a function that is wrong in the same way, and lemmas say
exactly when that function is the intended one: `ToomThree.Times` for mp_mul, `PowerMachine.Powered` with
`PowerLaws.FastPower` and `PowerLaws.FoldPower` for the exponentiators, `FoldReduction.Folded` for mp_reduce_2k,
`GreatestCommonDivisor.Extended` for mp_exteuclid.  Others have one specification for two implementations:
`Montgomery.Redc` for the comba and the in-place Montgomery reduction, `Columns.Cols` and `Columns.Rows` for the comba
and the baseline products.

## How the receive window is modelled

`ReceiveWindow.Window` is a class with the source's fields.  Ghost fields keep the history: which chunk was taken for
which number, and what has been handed out.  `Valid()` ties the ring, the three counters, the credit and the pending
acknowledgement to that history, and every method keeps it.  A chunk is its wire number, its serialised size and an
opaque message; whether a packet has room for the acknowledgement is a parameter.  `View` is the window as a value, and
every method is proved to take the step of `View`.  `Run` drives a window through any sequence of arrivals, packets and
reads; `After` is the same run on views, about which the laws of all runs are proved.  What the caller can see is stated
once more without views: `Truthful` says of a response, in terms of the events and the responses before it, when a
chunk is accepted, which message a read hands out, and when an acknowledgement goes out and what it lists.
Acknowledgement and gap blocks follow section 3.3.4 of RFC 4960.

## Where the code is not what its comments or its callers expect

* `bn_mp_toom_mul.c:246-271`: mp_lshd of zero leaves a positive digit count, and mp_add compares digit counts first.
  With operands of opposite signs, both middle parts zero and a short product of the low parts, the first addition
  subtracts the wrong way round and loses a borrow.  `ToomThree.Lost` is the exact guard for up to 1040 digits,
  and `ToomThree.ExactIff` the exact condition for up to 3113; `ToomThree.Times` is what mp_mul gives at any length, and
  `ToomThree.LosesBorrow` gives operands: radix^349 + 1 times its negation is off by radix^116.
* `bn_mp_exteuclid.c:42-51`: inherits that.  The loop still ends for all inputs and the divisor of non-negative operands
  is still right, but the coefficients can be wrong: `GreatestCommonDivisor.EuclidFails` gives operands of 699 and 350
  digits, and `GreatestCommonDivisor.BezoutUpToIff` says up to which digit counts all are right.
* `bn_mp_montgomery_reduce.c:36-42`: counts whatever the buffer holds above `used`; `Montgomery.StaleDigitSpoils` shows
  that a single stale digit is always wrong.
* `bn_mp_exptmod_fast.c:184-191`: for moduli of more than 255 digits the in-place reduction meets the word that
  fast_s_mp_mul_digs never wrote.  `PowerLaws.UnwrittenWordSpoils`: 0^3 comes out different from zero.
  `PowerLaws.AlwaysRightIff`: the powers can be relied on for all inputs and all contents of the local array exactly up
  to 255 digits; whatever the words are, the result stays below the modulus.
* `bn_fast_s_mp_mul_digs.c:40-44`: grows to digs digits, but the copy loop stores one more word; `Multiply.FastMulDigs`
  says exactly when that is outside the buffer.  It never is in the two callers, mp_mul (`Product.ShortMul`) and
  mp_reduce (`Barrett.LowParts`).
* `bn_mp_reduce_2k_setup.c:19-42`: keeps one digit of 2^p - n, but mp_reduce_is_2k also accepts moduli with
  2^p - n = 2^28; `FoldReduction.DistanceIsBase` gives them, `ModularPower.DigitFoldApplies` shows there are no others,
  and `PowerLaws.BadModulusPower` that 2^p, the base 2 to the bit count, comes out as zero for them.
* `bn_mp_montgomery_calc_normalization.c:28-38`: for one and for most powers of two the start value is the modulus
  itself, and so is the result (`Montgomery.StartsAtModulus`); no odd modulus above one is affected.
* `bn_fast_mp_invmod.c:58-120`: when an odd b divides a, v starts at zero, nothing but zero is ever subtracted from u,
  and the loop does not end (`Inverse.NeverEnds`).
* `bn_mp_invmod_slow.c:43-149`: zero does not count as even (`tommath.h:222`), so a multiple of an even b passes the
  test for two even numbers; when b is a power of two, a number is returned although there is no inverse.
* `bn_fast_mp_invmod.c:130-138`: copies the sign of a negative a onto a number that already inverts a;
  `Inverse.NegativeSpoils`.
* `bn_fast_mp_invmod.c:130-138`: nothing brings the answer below an odd modulus; 253 modulo 777 gives 820
  (`Inverse.AboveModulus`).
* `bn_mp_cmp_d.c:32`, `bn_mp_add_d.c:66`: the lowest digit of a zero is read although it need not be zero.
* `bn_mp_add_d.c:53-62`: sets the sign of c before it looks at that of a, so in place and for -b < a < 0 the result is
  b - a.
* `bn_mp_div.c:151`: the divisor's top digit ends in [radix/4, radix/2), not at radix/2 or above; the estimate is still
  at most one too large.
* `bn_mp_exptmod.c:24-106`: the zeroth power modulo one is one, not zero.
* `bn_mp_prime_is_prime.c:25-78`: so one is accepted as a prime, with any number of rounds (`Primality.PrimeIsPrime`).
* `bn_mp_prime_miller_rabin.c:69-93`: an even number passes for every base whose power a - 1 is minus one modulo a, the
  base a - 1 for instance (`StrongTests.EvenPasses`, `StrongTests.EvenImpostor`).
* `bn_mp_mod.c:18`: the result lies in [0, b) only for positive b.
* `src/bdConnection/bdReliableReceiveWindow.cpp:70-73`: no acknowledgement is made while number 0 is missing, although
  later numbers may be held.
* `src/bdConnection/bdReliableReceiveWindow.cpp:24`: the credit is only looked at for the newest numbers, so chunks that
  fill a gap may take the used credit above the limit; that used credit equals the sizes held is an invariant all the
  same.
* `src/bdConnection/bdReliableReceiveWindow.cpp:139`: read as emptying the slot.

## Model

| member | source | states |
|---|---|---|
| `MpInts.MpInt.constructor` | externals/libtommath/bn_mp_zero.c:19-31 | A new number is zero, positive and clamped, with 32 digits of clean buffer. |
| `MpInts.MpInt.Grow` | externals/libtommath/bn_mp_grow.c:19-52 | A buffer that is too short gets the wanted size, rounded up to a multiple of 32 digits and 32 more; the old digits stay, the new ones are zero. |
| `MpInts.MpInt.Zero` | externals/libtommath/bn_mp_zero.c:19-31 | The value becomes a positive zero and every digit in the buffer is cleared. |
| `MpInts.MpInt.Set` | externals/libtommath/bn_mp_set.c:19-24 | The value becomes the digit reduced modulo the radix. |
| `MpInts.MpInt.Clamp` | externals/libtommath/bn_mp_clamp.c:25-39 | Leading zeros are dropped without changing the magnitude; zero loses its sign; the dropped digits were zero. |
| `MpInts.MagBounds` | externals/libtommath/bn_mp_clamp.c:19-39 | A clamped number with `used` digits lies between the weights of its top digit and of the next one, and has no digit exactly when it is zero. |
| `MpInts.UsedBelow` | externals/libtommath/bn_mp_clamp.c:19-39 | A clamped number has at most n digits if and only if it is below radix^n. |
| `MpInts.Copy` | externals/libtommath/bn_mp_copy.c:19-63 | b takes the value of a; digits above the copied ones are zeroed; copying onto itself changes nothing. |
| `MpInts.CmpMag` | externals/libtommath/bn_mp_cmp_mag.c:19-50 | On clamped numbers the order of the magnitudes; on any numbers the digit counts decide first, and only equal counts compare digits. |
| `MpInts.Cmp` | externals/libtommath/bn_mp_cmp.c:19-38 | The order of the signed values. |
| `MpInts.Lshd` | externals/libtommath/bn_mp_lshd.c:19-62 | The magnitude is multiplied by radix^b and the digit count grows by b, also for zero, which then is not clamped. |
| `MpInts.ShiftUp` | externals/libtommath/bn_mp_lshd.c:35-59 | The loops move the digits up in place and zero the lowest b; everything above is untouched. |
| `MpInts.Rshd` | externals/libtommath/bn_mp_rshd.c:19-67 | The magnitude is divided by radix^b, rounding down. |
| `MpInts.ShiftDown` | externals/libtommath/bn_mp_rshd.c:34-63 | The two loops move the digits down in place and zero the b digits left at the top. |
| `AddSub.SAdd` | externals/libtommath/bn_s_mp_add.c:19-104 | The sum of the magnitudes, in place too; at most one digit more than the longer operand; clean digits stay clean. |
| `AddSub.AddLoops` | externals/libtommath/bn_s_mp_add.c:66-91 | The digits written and the carry returned together are the sum of the digits read. |
| `AddSub.StoreCarry` | externals/libtommath/bn_s_mp_add.c:93-103 | The carry becomes the top digit and the old digits above are cleared. |
| `AddSub.SSub` | externals/libtommath/bn_s_mp_sub.c:19-83 | The difference of the magnitudes modulo radix^used of the minuend, and the exact difference when it is not negative. |
| `AddSub.BorrowWord` | externals/libtommath/bn_s_mp_sub.c:48-61 | The top bit of the wrapped unsigned difference is the borrow and its low bits are the digit. |
| `AddSub.SubLoops` | externals/libtommath/bn_s_mp_sub.c:48-73 | The digits written less the borrow returned are the difference of the digits read. |
| `AddSub.LostBorrow` | externals/libtommath/bn_s_mp_sub.c:48-73 | What the loops leave is the difference modulo radix^n, since the last borrow is dropped. |
| `AddSub.Add` | externals/libtommath/bn_mp_add.c:19-47 | The signed sum, also in place; with operands that are not clamped and signs that differ, exactly which wrapped difference the digit counts select. |
| `AddSub.SubtractSmaller` | externals/libtommath/bn_mp_add.c:35-45 | The branch for different signs: the wrapped difference that mp_cmp_mag selects, with its sign, and the exact difference for clamped operands. |
| `AddSub.Sub` | externals/libtommath/bn_mp_sub.c:19-53 | The signed difference, in place too, for clamped operands or a clamped longer minuend. |
| `Columns.ColsFull` | externals/libtommath/bn_fast_s_mp_mul_digs.c:47-81 | All columns together are the product of the two operands. |
| `Columns.ColsAreRows` | externals/libtommath/bn_s_mp_mul_digs.c:42-78 | The columns below n add up to the rows cut off at n: the comba and the baseline product agree. |
| `Columns.HighRowsAreCols` | externals/libtommath/bn_s_mp_mul_high_digs.c:43-71 | The rows without their part below the cut are the columns at or above it, whatever the lower columns would carry. |
| `Columns.LowColumnsBound` | externals/libtommath/bn_fast_s_mp_mul_high_digs.c:27-93 | The columns a high product leaves out sum to less than n times (radix - 1) times radix^n. |
| `Columns.SquareColumn` | externals/libtommath/bn_fast_s_mp_sqr.c:52-82 | A column of a square is twice its first half, plus the square of the middle digit in even columns. |
| `Multiply.Accumulate` | externals/libtommath/bn_fast_s_mp_mul_digs.c:70-74 | The wrapping mp_word accumulator ends at the sum of the products if every partial sum fits. |
| `Multiply.CombaColumn` | externals/libtommath/bn_fast_s_mp_mul_digs.c:53-74 | One column with at most 256 products and a carry never overflows an mp_word and is added exactly. |
| `Multiply.ColumnRange` | externals/libtommath/bn_fast_s_mp_mul_digs.c:57-68 | Start indices and length of the inner loop select exactly the non-empty products of the column. |
| `Multiply.CombaColumns` | externals/libtommath/bn_fast_s_mp_mul_digs.c:50-81 | The stored digits and the dropped carry make up the columns computed; every other entry of W is whatever it was before. |
| `Multiply.FastMulDigs` | externals/libtommath/bn_fast_s_mp_mul_digs.c:34-102 | The product of the magnitudes modulo radix^digs, also in place; the word that was never written ends up above the product, and `overrun` says exactly when the copy loop stores it one past the buffer (digs <= a->used + b->used and alloc == digs). |
| `Multiply.LowProduct` | externals/libtommath/bn_fast_s_mp_mul_digs.c:47-81 | Dropping the carry out of the last column leaves the product modulo radix^digs. |
| `Multiply.MulAddRow` | externals/libtommath/bn_s_mp_mul_digs.c:61-73 | One digit times a stretch of the other operand is added at a position of a buffer of 32-bit words, with the carry returned; no mp_word overflows, and on digits the carry is a digit. |
| `Multiply.LowRow` | externals/libtommath/bn_s_mp_mul_digs.c:44-78 | One row, cut off at digs digits. |
| `Multiply.MulRows` | externals/libtommath/bn_s_mp_mul_digs.c:42-78 | All rows together are the product modulo radix^digs. |
| `Multiply.MulDigs` | externals/libtommath/bn_s_mp_mul_digs.c:22-85 | The product of the magnitudes modulo radix^digs, by the comba form when its guard holds and by rows otherwise; when the copy loop overruns the buffer. |
| `Multiply.FastMulHighDigs` | externals/libtommath/bn_fast_s_mp_mul_high_digs.c:27-93 | The digits from digs up are exactly the sum of the columns from digs up, with nothing carried in from below. |
| `Multiply.TopColumns` | externals/libtommath/bn_fast_s_mp_mul_high_digs.c:41-71 | Nothing is carried out of the last column. |
| `Multiply.HighRowLoop` | externals/libtommath/bn_s_mp_mul_high_digs.c:43-71 | The rows started at digs - ix add up to the columns from digs up. |
| `Multiply.MulHighDigs` | externals/libtommath/bn_s_mp_mul_high_digs.c:21-76 | The baseline and the comba form of the high product agree from digit digs up. |
| `Multiply.CarryUp` | externals/libtommath/bn_mp_montgomery_reduce.c:88-94 | The upward carry loop keeps the value of a buffer of digits and stays inside m digits because the value does; what it loses in words that are no digits is counted. |
| `SingleDigit.MulD` | externals/libtommath/bn_mp_mul_d.c:19-74 | The signed product with one digit, in place too. |
| `SingleDigit.Mul2d` | externals/libtommath/bn_mp_mul_2d.c:19-80 | The magnitude is multiplied by 2^b, in place too. |
| `SingleDigit.ShiftBits` | externals/libtommath/bn_mp_mul_2d.c:44-77 | The bit-shift loop multiplies the digits by 2^d and appends the last carry. |
| `SingleDigit.DivDGeneral` | externals/libtommath/bn_mp_div_d.c:78-97 | Quotient digits and remainder satisfy the division equation with a remainder below the divisor. |
| `SingleDigit.ThirdWord` | externals/libtommath/bn_mp_div_3.c:38-57 | The estimate by the reciprocal of three, with its fix-up loop, gives the exact quotient digit and remainder. |
| `SingleDigit.Div3Loop` | externals/libtommath/bn_mp_div_3.c:36-58 | The digit loop divides by three. |
| `DigitDivision.Div3` | externals/libtommath/bn_mp_div_3.c:19-73 | The quotient by three rounded towards zero, in place too, and the remainder of the magnitude. |
| `DigitDivision.IsPowerOfTwo` | externals/libtommath/bn_mp_div_d.c:18-34 | The exponent is found exactly when the digit is a power of two. |
| `DigitDivision.DivD` | externals/libtommath/bn_mp_div_d.c:36-109 | All special cases divide by the digit: zero is refused, one, powers of two, three, and the general loop give quotient and remainder. |
| `DigitDivision.CmpD` | externals/libtommath/bn_mp_cmp_d.c:19-39 | The order of what the code looks at and the digit: the value, except that for zero it is the lowest digit in the buffer, which the code reads unconditionally. |
| `Bits.Div2d` | externals/libtommath/bn_mp_div_2d.c:19-92 | Quotient by 2^b rounded towards zero and, when wanted, the remainder with the sign of the dividend. |
| `Bits.ShiftRight` | externals/libtommath/bn_mp_div_2d.c:47-86 | The quotient half of mp_div_2d, in place. |
| `Bits.UnshiftBits` | externals/libtommath/bn_mp_div_2d.c:58-85 | The downward shift loop leaves the quotient and passes out the bits that fell off. |
| `Bits.Mod2d` | externals/libtommath/bn_mp_mod_2d.c:19-50 | The magnitude modulo 2^b, in place too. |
| `Bits.LowBits` | externals/libtommath/bn_mp_mod_2d.c:41-48 | Zeroing the digits above bit b and masking one digit leaves the number modulo 2^b. |
| `Bits.CountBits` | externals/libtommath/bn_mp_count_bits.c:19-40 | The unique r with 2^(r-1) <= magnitude < 2^r, and zero for zero. |
| `Bits.TwoExpt` | externals/libtommath/bn_mp_2expt.c:23-43 | The value becomes 2^b. |
| `Bits.Div2` | externals/libtommath/bn_mp_div_2.c:19-63 | Half of the magnitude, rounded down, in place too. |
| `Bits.Mul2` | externals/libtommath/bn_mp_mul_2.c:19-77 | Twice the value, in place too. |
| `DigitAddition.AddD` | externals/libtommath/bn_mp_add_d.c:19-106 | The sum with one digit, with the two exceptions the code makes: in place and for -b < a < 0 it is b - a, and for zero it is b plus the lowest digit in the buffer, modulo the radix. |
| `DigitAddition.CarryLoop` | externals/libtommath/bn_mp_add_d.c:66-78 | The carry loop adds one digit to a digit string. |
| `DigitAddition.SubD` | externals/libtommath/bn_mp_sub_d.c:19-87 | The difference with one digit, in place too, on every branch. |
| `DigitAddition.BorrowLoop` | externals/libtommath/bn_mp_sub_d.c:68-79 | The borrow loop subtracts one digit from a digit string. |
| `LongDivision.FirstEstimate` | externals/libtommath/bn_mp_div.c:190-202 | The first quotient digit is never too small, although the divisor's top digit is only known to be at least a quarter of the radix. |
| `LongDivision.LowerEstimate` | externals/libtommath/bn_mp_div.c:204-227 | Lowering the digit after a failed two-digit test keeps it from being too small. |
| `LongDivision.PassedTest` | externals/libtommath/bn_mp_div.c:204-227 | A digit that passes the two-digit test is at most one too large. |
| `LongDivision.StoppedEarly` | externals/libtommath/bn_mp_div.c:222-227 | When the unclamped three-digit number ends the test early, the digit still is at most one too large. |
| `LongDivision.TopTwoThree` | externals/libtommath/bn_mp_div.c:213-226 | The leading one, two and three digits bound dividend and divisor the way the estimate needs. |
| `LongDivision.TestDigit` | externals/libtommath/bn_mp_div.c:213-227 | One evaluation of the loop condition: again means the digit can be lowered safely, stop means it is at most one too large. |
| `LongDivision.LowerWhileTooLarge` | externals/libtommath/bn_mp_div.c:209-227 | The do-while loop ends with a digit that is never too small and at most one too large. |
| `LongDivision.EstimateDigit` | externals/libtommath/bn_mp_div.c:190-227 | Both steps of the estimate together. |
| `LongDivision.OffByOne` | externals/libtommath/bn_mp_div.c:238-255 | One add-back is enough, and the digit and rest after it are the exact ones. |
| `LongDivision.SubtractRound` | externals/libtommath/bn_mp_div.c:229-255 | Subtraction and add-back leave a rest below the shifted divisor with the division equation of the round. |
| `LongDivision.Normalise` | externals/libtommath/bn_mp_div.c:151-163 | Both operands are scaled by the same power of two and the divisor's top digit ends in [radix/4, radix/2), not at radix/2 or above as the comment has it. |
| `LongDivision.TopDigit` | externals/libtommath/bn_mp_div.c:169-182 | The leading quotient digit by repeated subtraction; it fits a digit and the rest is below the shifted divisor. |
| `LongDivision.SubtractAll` | externals/libtommath/bn_mp_div.c:174-179 | The loop counts how often the shifted divisor goes into the dividend and leaves the rest. |
| `LongDivision.ShortDividend` | externals/libtommath/bn_mp_div.c:185-188 | Skipping a round is right because the dividend is already below the next multiple of the divisor. |
| `LongDivision.DigitRounds` | externals/libtommath/bn_mp_div.c:184-256 | The digit loop keeps dividend = quotient * divisor + rest and ends with a rest below the divisor. |
| `LongDivision.DivideMagnitudes` | externals/libtommath/bn_mp_div.c:126-260 | The quotient digits and the unscaled rest divide the magnitudes exactly. |
| `LongDivision.SmallDividend` | externals/libtommath/bn_mp_div.c:113-124 | A dividend smaller than the divisor is its own remainder. |
| `LongDivision.StoreResults` | externals/libtommath/bn_mp_div.c:262-274 | The signs of both results, and the remainder scaled back. |
| `LongDivision.Div` | externals/libtommath/bn_mp_div.c:103-284 | Quotient rounded towards zero and remainder with the sign of the dividend for every signed pair; division by zero is refused and changes nothing; outputs may be null or alias the inputs. |
| `Arith.TDivision` | externals/libtommath/bn_mp_div.c:90-92 | The division equation, a remainder below the divisor and its sign determine quotient and remainder. |
| `Arith.TDivisionHolds` | externals/libtommath/bn_mp_div.c:90-92 | The truncated quotient and remainder satisfy that equation. |
| `Modulo.Mod` | externals/libtommath/bn_mp_mod.c:19-43 | The residue in [0, b) for b > 0 and any a; for b < 0 the one in [b, 0), so a multiple of b gives b. |
| `Modulo.MulMod` | externals/libtommath/bn_mp_mulmod.c:19-35 | The residue of what mp_mul gives for the two factors, with the same sign rule as mp_mod; a zero modulus is refused. |
| `Montgomery.RedcIsReduction` | externals/libtommath/bn_mp_montgomery_reduce.c:19-113 | The digit-at-a-time specification gives a result r < n with r * radix^k congruent to x modulo n. |
| `Montgomery.RoundExact` | externals/libtommath/bn_mp_montgomery_reduce.c:44-56 | The multiplier computed from rho clears the lowest digit. |
| `Montgomery.RoundBound` | externals/libtommath/bn_fast_mp_montgomery_reduce.c:68-111 | A round keeps the rest of the computation in range, so one final subtraction suffices. |
| `Montgomery.LiftInverse` | externals/libtommath/bn_mp_montgomery_setup.c:39-47 | Each lifting line doubles the number of correct bits of the inverse under machine wrap-around. |
| `Montgomery.StartInverse` | externals/libtommath/bn_mp_montgomery_setup.c:38 | The start value is an inverse modulo 16. |
| `Montgomery.MontgomerySetup` | externals/libtommath/bn_mp_montgomery_setup.c:19-54 | rho * n[0] = -1 modulo the radix for odd n, and a refusal exactly for even n. |
| `Montgomery.StartDoubling` | externals/libtommath/bn_mp_montgomery_calc_normalization.c:28-38 | The start value is a power of two below the modulus, also when the top digit is full and `bits` is zero; it is the modulus itself exactly for one and for powers of two with a partly filled top digit. |
| `Montgomery.DoubleStep` | externals/libtommath/bn_mp_montgomery_calc_normalization.c:43-50 | One doubling with its conditional subtraction gives the next power of two modulo b, or leaves b where it started at b. |
| `Montgomery.CalcNormalization` | externals/libtommath/bn_mp_montgomery_calc_normalization.c:24-54 | radix^used modulo b for every b that is not negative, except that it is b itself for one and for the powers of two above a digit whose top digit is not full, and the radix for zero. |
| `Montgomery.LoadColumns` | externals/libtommath/bn_fast_mp_montgomery_reduce.c:44-63 | The columns hold the digits of x and zeros above. |
| `Montgomery.AddMultiple` | externals/libtommath/bn_fast_mp_montgomery_reduce.c:92-107 | The inner loop adds mu * n to the columns and no mp_word wraps. |
| `Montgomery.CombaRound` | externals/libtommath/bn_fast_mp_montgomery_reduce.c:68-111 | One round with its deferred carry keeps the specification's value and leaves room in every column. |
| `Montgomery.CombaRounds` | externals/libtommath/bn_fast_mp_montgomery_reduce.c:44-111 | All n->used rounds, for up to 255 digits, without overflow. |
| `Montgomery.Propagate` | externals/libtommath/bn_fast_mp_montgomery_reduce.c:117-148 | The last carries and the copy give the digits of the number the upper columns stand for; nothing is carried past the last column. |
| `Montgomery.FinalSubtract` | externals/libtommath/bn_fast_mp_montgomery_reduce.c:162-165 | One conditional subtraction of the modulus. |
| `Montgomery.FastMontgomeryReduce` | externals/libtommath/bn_fast_mp_montgomery_reduce.c:26-167 | The comba form computes the specification function. |
| `Montgomery.BaselineRound` | externals/libtommath/bn_mp_montgomery_reduce.c:44-95 | One in-place round with its upward carry loop keeps the bound on the buffer, and on digits the specification's value. |
| `Montgomery.BaselineReduce` | externals/libtommath/bn_mp_montgomery_reduce.c:19-113 | Whatever 32-bit words the buffer holds, the result is below the modulus with a clean buffer; when they are digits, it is the same specification function of everything in the buffer. |
| `Montgomery.StaleDigitSpoils` | externals/libtommath/bn_mp_montgomery_reduce.c:36-42 | One digit left over above `used` always makes the in-place form answer for another residue. |
| `Montgomery.MontgomeryReduce` | externals/libtommath/bn_mp_montgomery_reduce.c:19-113 | The comba form ignores what lies above `used`, the in-place form counts it; on a clean buffer both return the same number. |
| `DigitCounts.ThirdsMakeUp` | externals/libtommath/bn_mp_toom_mul.c:40-70 | The three parts with their weights are the number. |
| `DigitCounts.UsedIsNumDigits` | externals/libtommath/bn_mp_clamp.c:19-39 | The digit count of a clamped number is a function of its magnitude. |
| `Product.Halves` | externals/libtommath/bn_mp_karatsuba_mul.c:79-116 | The copy loops cut the digits in two; only the low half needs clamping. |
| `Product.KaratsubaIdentity` | externals/libtommath/bn_mp_karatsuba_mul.c:133-148 | The three half products make up the full product and the middle term is not negative. |
| `Product.KaratsubaProducts` | externals/libtommath/bn_mp_karatsuba_mul.c:118-131 | The three recursive products are exact and of smaller operands. |
| `Product.KaratsubaCombine` | externals/libtommath/bn_mp_karatsuba_mul.c:133-148 | Subtracting, shifting and adding them gives the product. |
| `Product.KaratsubaMul` | externals/libtommath/bn_mp_karatsuba_mul.c:47-162 | The product of the magnitudes; the recursion through mp_mul terminates. |
| `Product.Thirds` | externals/libtommath/bn_mp_toom_mul.c:40-70 | mp_mod_2d, mp_copy and mp_rshd cut out the three parts with their sign. |
| `Product.EvalAtTwo` | externals/libtommath/bn_mp_toom_mul.c:83-107 | Doubling and adding evaluates a part polynomial at two. |
| `ToomThree.Samples` | externals/libtommath/bn_mp_toom_mul.c:162-172 | The three mixed products are the rows of the matrix applied to the product's coefficients. |
| `Product.ToomProducts` | externals/libtommath/bn_mp_toom_mul.c:72-160 | The five products are what mp_mul gives for the parts, at every depth of the recursion. |
| `Product.Interpolate` | externals/libtommath/bn_mp_toom_mul.c:174-244 | The in-place steps compute the interpolation function of any five numbers, with the roundings of the halvings and of the divisions by three. |
| `ToomThree.Weighted` | externals/libtommath/bn_mp_toom_mul.c:246-271 | The coefficients with their weights are the product. |
| `Product.Recombine` | externals/libtommath/bn_mp_toom_mul.c:246-271 | The shifted sum as mp_add computes it on the unclamped shifted coefficients, lost borrows included. |
| `ToomThree.LongCoefficients` | externals/libtommath/bn_mp_toom_mul.c:246-271 | That happens exactly for operands that satisfy Lost: signs differ, both middle parts are zero, both low parts are not, and their product is shorter than the shift. |
| `Product.ToomMul` | externals/libtommath/bn_mp_toom_mul.c:25-278 | The result is ToomThree.Times of the operands, whatever their signs and lengths; the recursion through mp_mul terminates. |
| `ToomThree.SameSigns` | externals/libtommath/bn_mp_toom_mul.c:72-160 | Operands that do not have opposite signs never lose a borrow, at any depth of the recursion. |
| `ToomThree.OneLevel` | externals/libtommath/bn_mp_toom_mul.c:25-278 | Below 1041 digits the product is exact if and only if Lost is false. |
| `ToomThree.LosesBorrow` | externals/libtommath/bn_mp_toom_mul.c:246-271 | Concrete operands that lose the borrow: radix^d + 1 times its negation, 349 <= d <= 1037. |
| `Product.ShortMul` | externals/libtommath/bn_mp_mul.c:36-57 | The comba and the baseline branch give the product of the magnitudes; the buffer above it is clean but for the unwritten word of the comba branch. |
| `Product.MulMagnitudes` | externals/libtommath/bn_mp_mul.c:30-57 | Karatsuba, comba and baseline give the product of the magnitudes; only the comba branch leaves a word above it. |
| `Product.Mul` | externals/libtommath/bn_mp_mul.c:19-61 | The signed product as ToomThree.Times gives it, on every dispatch path and in place too, and exactly what lies above it in the buffer. |
| `ToomThree.InterpolatedSamples` | externals/libtommath/bn_mp_toom_mul.c:162-244 | Interpolation undoes sampling: the five coefficients come back, so both halvings and both divisions by three have remainder zero. |
| `ToomThree.RecombinedValue` | externals/libtommath/bn_mp_toom_mul.c:246-271 | The shifted sum is the value at the weight, plus one unit of the shift exactly when the lowest coefficient is negative and short and the next one is zero. |
| `ToomThree.TimesComputed` | externals/libtommath/bn_mp_toom_mul.c:25-278 | When the five products are exact, mp_mul is exact if and only if `Lost` is false, and otherwise off by one unit of the shift. |
| `ToomThree.ExactIff` | externals/libtommath/bn_mp_toom_mul.c:25-278 | For a shorter operand of up to 3113 digits mp_mul is exact if and only if neither it nor one of its five sub-products loses a borrow: lost borrows do not cancel. |
| `ToomThree.RightValue` | externals/libtommath/bn_mp_toom_mul.c:162-271 | Samples that are too large by one unit each, or right, give the right value only if all are right, in spite of roundings and slips. |
| `ToomThree.ExactTimes` | externals/libtommath/bn_mp_mul.c:19-61 | mp_mul is exact when no level of the recursion loses a borrow; in particular without opposite signs. |
| `ToomThree.ExactUpTo` | externals/libtommath/bn_mp_mul.c:19-61 | mp_mul is exact for all operands of at most m and n digits if and only if m or n is below 350. |
| `ToomThree.LostProduct` | externals/libtommath/bn_mp_mul.c:19-61 | What mp_mul makes of radix^d + 1 and its negation. |
| `ToomThree.TimesError` | externals/libtommath/bn_mp_toom_mul.c:25-278 | At every depth the product is off by less than the weight a hundred digits below the digits of the operands together. |
| `ToomThree.TimesSign` | externals/libtommath/bn_mp_mul.c:19-61 | The sign of the result is always that of the product, and it is zero only when a factor is. |
| `Squaring.SquareRange` | externals/libtommath/bn_fast_s_mp_sqr.c:52-69 | Start and length of the inner loop cover half of the column. |
| `Squaring.SquareColumnSum` | externals/libtommath/bn_fast_s_mp_sqr.c:49-82 | Doubling the half column and adding the middle square is the whole column, without overflow. |
| `Squaring.SquareColumns` | externals/libtommath/bn_fast_s_mp_sqr.c:42-89 | The column loop produces the digits of the square. |
| `Squaring.FastSqr` | externals/libtommath/bn_fast_s_mp_sqr.c:28-109 | The comba square is the square, in place too. |
| `Squaring.DoubleRow` | externals/libtommath/bn_s_mp_sqr.c:52-66 | The inner loop adds twice a digit times the digits above it. |
| `Squaring.SquareOneRow` | externals/libtommath/bn_s_mp_sqr.c:34-73 | One row with its upward carry loop keeps what is done plus what remains equal to the square. |
| `Squaring.BaselineSqr` | externals/libtommath/bn_s_mp_sqr.c:19-79 | The baseline square is the square. |
| `Squaring.KaratsubaSqr` | externals/libtommath/bn_mp_karatsuba_sqr.c:25-116 | Three half-size squares give the square; a clean buffer stays clean. |
| `Squaring.ToomSqr` | externals/libtommath/bn_mp_toom_sqr.c:19-220 | Five squares and the interpolation give the square, with no borrow lost; a clean buffer stays clean. |
| `Squaring.Sqr` | externals/libtommath/bn_mp_sqr.c:19-53 | The square on every dispatch path, in place too, never negative; a clean buffer stays clean. |
| `Barrett.ReduceSetup` | externals/libtommath/bn_mp_reduce_setup.c:21-29 | radix^(2k) divided by the modulus, rounded towards zero, with the sign of the modulus; a zero modulus is refused. |
| `Barrett.EstimateBelow` | externals/libtommath/bn_mp_reduce.c:27-58 | The estimated quotient is never too large. |
| `Barrett.EstimateAbove` | externals/libtommath/bn_mp_reduce.c:27-58 | It falls short by at most the dropped columns plus two. |
| `Barrett.Truncated` | externals/libtommath/bn_mp_reduce.c:40-58 | Leaving out the columns below m->used costs less than m->used + 1 units of the quotient. |
| `Barrett.EstimateQuotient` | externals/libtommath/bn_mp_reduce.c:27-58 | Both bounds for the quotient that the code computes, by the truncated or the full product. |
| `Barrett.RestBelow` | externals/libtommath/bn_mp_reduce.c:60-68 | What remains of x fits radix^(k+1), so working modulo that weight loses nothing. |
| `Barrett.LowParts` | externals/libtommath/bn_mp_reduce.c:60-68 | x and q * m modulo radix^(k+1), in place; the truncated product never stores past the buffer of q, unlike fast_s_mp_mul_digs in general. |
| `Barrett.WrappedDifference` | externals/libtommath/bn_mp_reduce.c:70-82 | The wrapped difference, repaired when negative, is the rest. |
| `Barrett.SubtractEstimate` | externals/libtommath/bn_mp_reduce.c:60-82 | The three steps in place give the rest. |
| `Barrett.BackOff` | externals/libtommath/bn_mp_reduce.c:84-89 | The final loop gives the residue and runs at most the given number of times. |
| `Barrett.Reduce` | externals/libtommath/bn_mp_reduce.c:22-95 | x mod m for every 0 <= x < radix^(2k), which includes x < m^2, with at most m->used + 2 final subtractions (two with the full product). |
| `FoldReduction.Setup2kL` | externals/libtommath/bn_mp_reduce_2k_setup_l.c:19-39 | 2^p - n, where p is the bit count of n. |
| `FoldReduction.Fold` | externals/libtommath/bn_mp_reduce_2k_l.c:32-46 | Folding the part above bit p, times d, back in keeps the residue and does not enlarge the number. |
| `FoldReduction.Reduce2kL` | externals/libtommath/bn_mp_reduce_2k_l.c:22-56 | The residue of any a >= 0; the goto loop terminates. |
| `FoldReduction.Setup2k` | externals/libtommath/bn_mp_reduce_2k_setup.c:19-42 | Only the lowest digit of 2^p - n is kept. |
| `FoldReduction.Reduce2k` | externals/libtommath/bn_mp_reduce_2k.c:19-55 | For every a >= 0 the result is the fold function of a and the given digit, right or wrong; the goto loop terminates. |
| `FoldReduction.FoldedIsResidue` | externals/libtommath/bn_mp_reduce_2k.c:29-46 | The fold gives the residue of every number if and only if 2^p and the digit agree modulo n. |
| `FoldReduction.FoldedPower` | externals/libtommath/bn_mp_reduce_2k.c:29-46 | 2^p is sent to the digit, reduced. |
| `FoldReduction.SmallDistance` | externals/libtommath/bn_mp_reduce_2k_setup.c:19-42 | A distance that fits a digit is kept whole. |
| `FoldReduction.DistanceIsBase` | externals/libtommath/bn_mp_reduce_2k_setup.c:19-42 | Concrete moduli for which the kept digit is wrong: (2^j - 1) * 2^28 with 2 <= j < 28. |
| `Exponentiation.ReduceBy` | externals/libtommath/bn_mp_exptmod_fast.c:85-133 | One call through the reduction pointer, for Montgomery, Barrett and both fold reductions: the reduction as a function of the number, or of the whole buffer for the in-place Montgomery form. |
| `Exponentiation.MultiplyAndReduce` | externals/libtommath/bn_mp_exptmod_fast.c:184-191 | A product and its reduction compute the specification's reduced product, the unwritten word included where the reduction counts it. |
| `Exponentiation.SquareAndReduce` | externals/libtommath/bn_mp_exptmod_fast.c:174-181 | A square and its reduction: no unwritten word ever counts. |
| `Exponentiation.LadenReducible` | externals/libtommath/bn_mp_montgomery_reduce.c:19-113 | A product with any 32-bit word above it still is in the range that the in-place reduction accepts, so it ends below the modulus. |
| `PowerMachine.WindowSizeOf` | externals/libtommath/bn_mp_exptmod_fast.c:44-60 | The window has two to eight bits, so the table holds every cell it can index. |
| `Exponentiation.FillTable` | externals/libtommath/bn_mp_exptmod_fast.c:169-191 | Exactly cell 1 and the cells from 2^(w-1) up to 2^w are filled, each with the number that the specification has there; the others stay null. |
| `Exponentiation.NextBit` | externals/libtommath/bn_mp_exptmod_fast.c:202-215 | The bits of the exponent come out from the top, one by one, until none is left. |
| `Exponentiation.ReadBits` | externals/libtommath/bn_mp_exptmod_fast.c:193-266 | After the loop all bits of the exponent are read and the machine is where the specification has it; a zero exponent leaves the result untouched. |
| `Exponentiation.Step` | externals/libtommath/bn_mp_exptmod_fast.c:217-265 | Every branch of the machine takes the specification's step on the result, the partial window, the mode and the exponent so far. |
| `Exponentiation.Leftover` | externals/libtommath/bn_mp_exptmod_fast.c:268-291 | The partial window is worked off bit by bit with cell 1, as the specification does. |
| `Exponentiation.Exponentiate` | externals/libtommath/bn_s_mp_exptmod.c:30-237 | The whole machine computes `Powered`, for any of the reductions and any unwritten words. |
| `PowerMachine.WindowGrows` | externals/libtommath/bn_mp_exptmod_fast.c:237-241 | A bit put into the window keeps: exponent read = exponent done * 2^bitcpy + window; a full window is the index of a filled cell. |
| `PowerMachine.AdvanceTracks` | externals/libtommath/bn_mp_exptmod_fast.c:217-265 | Every branch keeps the result related to the exponent done, for any relation that squares and products keep. |
| `PowerMachine.PoweredTracks` | externals/libtommath/bn_mp_exptmod_fast.c:193-291 | From g^0 and g^1 the machine ends related to exactly the exponent x, for any such relation. |
| `PowerMachine.PoweredIgnores` | externals/libtommath/bn_mp_exptmod_fast.c:184-291 | The unwritten words do not matter unless the in-place Montgomery form reduces. |
| `PowerMachine.PoweredCovered` | externals/libtommath/bn_mp_exptmod_fast.c:184-291 | A run in which every counted word is zero is the same with any words that are zero where those are. |
| `PowerMachine.NeverCopiesIff` | externals/libtommath/bn_mp_exptmod_fast.c:184-291 | A run without a counted comba product is one in which no word can count, and its result is the same for all words. |
| `PowerLaws.ProductStands` | externals/libtommath/bn_mp_exptmod_fast.c:174-191 | A reduced product of numbers that stand for g^e and g^f stands for g^(e+f), in Montgomery form or not. |
| `PowerLaws.PoweredStands` | externals/libtommath/bn_mp_exptmod_fast.c:169-291 | With a right reduction, and every counted word zero, the machine ends at g^x. |
| `PowerLaws.PlainPower` | externals/libtommath/bn_s_mp_exptmod.c:30-237 | With plain residues it ends at g^x mod n for every n > 0, except that modulo one the exponent zero gives one. |
| `Exponentiation.ExptmodMontgomery` | externals/libtommath/bn_mp_exptmod_fast.c:32-315 | redmode 0, odd P > 1 of any length: the result is `FastPower` of the base, the exponent and the unwritten words, below P whatever the words are, and G^X mod P when every counted word is zero; an even modulus is refused. |
| `PowerLaws.FastPowerIsPower` | externals/libtommath/bn_mp_exptmod_fast.c:147-315 | For odd n and every counted word zero, every power of g is right if and only if the product that makes the first cell is. |
| `PowerLaws.FastPowerRight` | externals/libtommath/bn_mp_exptmod_fast.c:147-315 | One power: right when every word that its run counts is zero and the first cell is right. |
| `PowerLaws.FirstIsRight` | externals/libtommath/bn_mp_exptmod_fast.c:159 | That product is right for g >= 0 and for a modulus or a base below 350 digits. |
| `PowerLaws.UnwrittenWordSpoils` | externals/libtommath/bn_mp_exptmod_fast.c:184-191 | Base zero, exponent three, any odd modulus above 255 digits: a nonzero digit in the word that becomes part of cell 3 gives a nonzero power of zero. |
| `PowerLaws.AlwaysRightIff` | externals/libtommath/bn_mp_exptmod_fast.c:32-315 | Every base, exponent and content of the local array gives G^X mod P if and only if P has at most 255 digits. |
| `Exponentiation.ExptmodFoldDigit` | externals/libtommath/bn_mp_exptmod_fast.c:113-133 | redmode 2, every P > 1: the result is `FoldPower`, the power with the reduction that the kept digit makes. |
| `PowerLaws.FoldPowerWrong` | externals/libtommath/bn_mp_exptmod_fast.c:113-133 | With a wrong kept digit, the base 2 to the bit count of the modulus is wrong, and this is what comes out. |
| `PowerLaws.FoldPowerIff` | externals/libtommath/bn_mp_exptmod_fast.c:113-133 | Every power is right if and only if the kept digit is right for the modulus. |
| `PowerLaws.BadModulusPower` | externals/libtommath/bn_mp_exptmod_fast.c:113-133 | For the moduli (2^j - 1) * 2^28 that power is zero where it should be 2^28. |
| `Exponentiation.ExptmodBarrett` | externals/libtommath/bn_s_mp_exptmod.c:23-247 | redmode 0: G^X mod P for every P > 0 (modulo one the exponent zero gives one), and a refusal of zero. |
| `Exponentiation.ExptmodFoldLong` | externals/libtommath/bn_s_mp_exptmod.c:76-86 | redmode 1: G^X mod P for every P > 0, except that modulo one the exponent zero gives one. |
| `ModularPower.Is2kL` | externals/libtommath/bn_mp_reduce_is_2k_l.c:19-38 | True exactly if the modulus has one digit or at least half of its digits are full. |
| `ModularPower.DrIsModulus` | externals/libtommath/bn_mp_dr_is_modulus.c:19-37 | True exactly if there are two digits or more and all but the lowest are full. |
| `ModularPower.DiminishedRadixIsFull` | externals/libtommath/bn_mp_exptmod.c:68-81 | Such moduli have been taken before, so the diminished-radix branch is unreachable. |
| `ModularPower.Is2k` | externals/libtommath/bn_mp_reduce_is_2k.c:19-46 | True exactly if all bits above the lowest digit are set. |
| `ModularPower.DigitFoldApplies` | externals/libtommath/bn_mp_exptmod.c:83-93 | A modulus that reaches the digit fold has two digits, and its constant is right unless it is one of the bad moduli. |
| `ModularPower.ExptmodPositive` | externals/libtommath/bn_mp_exptmod.c:68-106 | Whatever exponentiator is chosen, the result is the outcome of that route; G^X mod P for every reliable modulus, and for the others when nothing disturbs the machine. |
| `ModularPower.OutcomeIsPower` | externals/libtommath/bn_mp_exptmod.c:68-106 | On each route the outcome is the power if no counted word disturbs the machine and the fold constant fits. |
| `ModularPower.ExptmodNegative` | externals/libtommath/bn_mp_exptmod.c:33-62 | A negative exponent: the power of what mp_invmod gives for G, and exactly when there is none. |
| `ModularPower.InversePower` | externals/libtommath/bn_mp_exptmod.c:58-59 | A power of an inverse inverts the power. |
| `ModularPower.UnspoiledInverse` | externals/libtommath/bn_mp_exptmod.c:58-59 | With G >= 0 or an even modulus it is an inverse outright. |
| `ModularPower.Exptmod` | externals/libtommath/bn_mp_exptmod.c:24-106 | mp_exptmod for every signed exponent: exactly when it is refused, and otherwise the outcome of the route its modulus takes; the power for every reliable modulus. |
| `ModularPower.ReliableIff` | externals/libtommath/bn_mp_exptmod.c:68-106 | Every power is right, for every base, exponent and content of the local array, if and only if the modulus is none of the bad fold moduli and, on the Montgomery route, has at most 255 digits. |
| `ModularPower.NegativePower` | externals/libtommath/bn_mp_exptmod.c:33-62 | The product of that power with G^abs(X) is one modulo P, up to the sign that fast_mp_invmod spoils, and one outright for G >= 0 or even P. |
| `Divisors.GcdGreatest` | externals/libtommath/bn_mp_gcd.c:19-100 | Every common divisor divides the specified greatest common divisor. |
| `Divisors.GcdDivides` | externals/libtommath/bn_mp_gcd.c:19-100 | The specified greatest common divisor divides both numbers. |
| `Divisors.GcdHalve` | externals/libtommath/bn_mp_gcd.c:85-88 | Halving an even number next to an odd one keeps the greatest common divisor. |
| `Divisors.InverseMeansCoprime` | externals/libtommath/bn_mp_invmod_slow.c:145-149 | Only a number coprime to the modulus has an inverse, so a refusal is right. |
| `GreatestCommonDivisor.CntLsb` | externals/libtommath/bn_mp_cnt_lsb.c:18-47 | The power of two in a nonzero number, and zero for zero, through the nibble table. |
| `GreatestCommonDivisor.TakeTwos` | externals/libtommath/bn_mp_gcd.c:44-71 | Taking all twos out of both numbers leaves the common ones as a factor. |
| `GreatestCommonDivisor.BinaryStep` | externals/libtommath/bn_mp_gcd.c:73-89 | One round keeps the greatest common divisor and makes the larger number smaller. |
| `GreatestCommonDivisor.BinaryLoop` | externals/libtommath/bn_mp_gcd.c:73-89 | The loop ends with the greatest common divisor of two odd numbers. |
| `GreatestCommonDivisor.BinaryGcd` | externals/libtommath/bn_mp_gcd.c:41-96 | With the common twos put back, the greatest common divisor of two positive numbers. |
| `GreatestCommonDivisor.GcdInto` | externals/libtommath/bn_mp_gcd.c:19-100 | The non-negative greatest common divisor of any two integers, in place too; zero for two zeros. |
| `GreatestCommonDivisor.AbsInto` | externals/libtommath/bn_mp_abs.c:22-38 | The magnitude. |
| `GreatestCommonDivisor.Negate` | externals/libtommath/bn_mp_neg.c:19-35 | The negated value; zero keeps its sign. |
| `GreatestCommonDivisor.RoundShrinks` | externals/libtommath/bn_mp_exteuclid.c:40-62 | Each round makes the larger third component smaller, whatever mp_mul loses: the loop ends for all inputs. |
| `GreatestCommonDivisor.EuclidStep` | externals/libtommath/bn_mp_exteuclid.c:41-61 | With exact products the next triple is again a combination of a and b, has the same divisor and a smaller third component, for signed inputs under truncated division. |
| `GreatestCommonDivisor.EuclidRound` | externals/libtommath/bn_mp_exteuclid.c:41-61 | One round computes the next triple, as mp_mul multiplies. |
| `GreatestCommonDivisor.ShortEuclid` | externals/libtommath/bn_mp_exteuclid.c:40-62 | One operand below 350 digits is enough for every product of the run to be exact. |
| `GreatestCommonDivisor.ExtEuclid` | externals/libtommath/bn_mp_exteuclid.c:21-77 | Terminates for all signed inputs with the triple of the run and U3 >= 0; a * U1 + b * U2 = U3 = gcd when the products of the run are exact; U3 = gcd for a, b >= 0 in any case; null outputs are skipped. |
| `GreatestCommonDivisor.ExactBezout` | externals/libtommath/bn_mp_exteuclid.c:40-77 | Exact products give a combination that makes the non-negative greatest common divisor. |
| `GreatestCommonDivisor.PositiveDivisor` | externals/libtommath/bn_mp_exteuclid.c:40-77 | The divisor of non-negative operands is right, whatever becomes of the coefficients. |
| `GreatestCommonDivisor.SmallEuclid` | externals/libtommath/bn_mp_exteuclid.c:40-62 | Two operands of at most 698 digits are enough as well. |
| `GreatestCommonDivisor.EuclidFails` | externals/libtommath/bn_mp_exteuclid.c:40-77 | Concrete operands of 2d + 1 and d + 1 digits, 349 <= d <= 1037, with the triple that comes out: a * U1 + b * U2 is not U3. |
| `GreatestCommonDivisor.BezoutUpToIff` | externals/libtommath/bn_mp_exteuclid.c:21-77 | a * U1 + b * U2 = U3 = gcd holds for all operands of at most m and n digits if and only if m or n is below 350 or both are at most 698. |
| `Inverse.EvenCombination` | externals/libtommath/bn_mp_invmod_slow.c:66-74 | Adding y and subtracting x when a coefficient is odd makes both even without changing the combination. |
| `Inverse.HalveRow` | externals/libtommath/bn_mp_invmod_slow.c:61-83 | One halving is exact and keeps the linear relation. |
| `Inverse.SlowRound` | externals/libtommath/bn_mp_invmod_slow.c:59-141 | Steps 4 to 6 keep both linear relations and the divisor, and u + v falls; for u = 0 they take the twos out of v. |
| `Inverse.SlowLoop` | externals/libtommath/bn_mp_invmod_slow.c:49-141 | The loop terminates with the greatest common divisor and its coefficients, and for a zero residue with the odd part of the modulus. |
| `Inverse.IntoRange` | externals/libtommath/bn_mp_invmod_slow.c:151-163 | The two final loops give the residue in [0, b). |
| `Inverse.CoefficientInverts` | externals/libtommath/bn_mp_invmod_slow.c:143-167 | The coefficient of a is its inverse modulo b. |
| `Inverse.InvmodSlow` | externals/libtommath/bn_mp_invmod_slow.c:19-170 | All inputs: accepted exactly when b > 0 and either a and b are coprime or b divides a and is a power of two; 0 <= c < b, and a * c = 1 modulo b exactly when they are coprime. |
| `Inverse.HalveShort` | externals/libtommath/bn_fast_mp_invmod.c:60-75 | One halving of the short form is exact modulo the odd modulus. |
| `Inverse.FastRound` | externals/libtommath/bn_fast_mp_invmod.c:58-121 | Steps 4 to 6 of the short form keep both congruences and the divisor; they take the pair u, v where the step function takes it, and u + v falls while v is not zero. |
| `Inverse.FastLoop` | externals/libtommath/bn_fast_mp_invmod.c:49-121 | The loop ends with the greatest common divisor and a coefficient that makes it a multiple modulo b; the coefficient is exactly what the rounds make of the start rows. |
| `Inverse.NeverEnds` | externals/libtommath/bn_fast_mp_invmod.c:58-120 | When an odd b divides a, any number of rounds leaves u = b and v = 0: the loop does not end. |
| `Inverse.InvmodFast` | externals/libtommath/bn_fast_mp_invmod.c:24-143 | Accepted exactly when b is odd and coprime to a; the result inverts a, or -a when a is negative, and is exactly what the rounds give, raised above zero; the pairs for which the loop does not end are excluded. |
| `Inverse.NegativeSpoils` | externals/libtommath/bn_fast_mp_invmod.c:130-138 | For a < 0 and odd b > 2 the result is never an inverse of a. |
| `Inverse.AboveModulus` | externals/libtommath/bn_fast_mp_invmod.c:130-138 | The answer for an odd modulus need not be below it: 253 modulo 777 gives 820. |
| `Inverse.Invmod` | externals/libtommath/bn_mp_invmod.c:19-38 | Refused exactly for moduli that are not positive or have a factor in common with a, but for the powers of two that divide a; otherwise an inverse of a, of -a for an odd modulus and a negative a; below the modulus if that is even, and exactly what the rounds give if it is odd. |
| `SquareRoot.StartNotEdge` | externals/libtommath/bn_mp_sqrt.c:43-55 | The start value, a quotient of the argument, is never s + 1 when the argument is s^2 + 2s. |
| `SquareRoot.IterateAtEdge` | externals/libtommath/bn_mp_sqrt.c:47-55 | For such arguments only the iterate s + 1 is sent below itself. |
| `SquareRoot.FirstIterate` | externals/libtommath/bn_mp_sqrt.c:43-55 | The loop starts at or above the root, and not at the root in the critical case. |
| `SquareRoot.LoopGoesOn` | externals/libtommath/bn_mp_sqrt.c:57-68 | While the loop goes on the iterate falls and its invariant holds again. |
| `SquareRoot.LoopStops` | externals/libtommath/bn_mp_sqrt.c:57-68 | When the new iterate no longer exceeds the quotient from the old one, it is the root. |
| `SquareRoot.NewtonLoop` | externals/libtommath/bn_mp_sqrt.c:56-68 | The do-while loop terminates at the root. |
| `SquareRoot.Sqrt` | externals/libtommath/bn_mp_sqrt.c:19-75 | The integer square root of every argument that is not negative, including s^2 + 2s; negative ones are refused. |
| `Fermat.Binomial` | externals/libtommath/bn_mp_prime_miller_rabin.c:61-67 | The binomial theorem, behind Fermat's little theorem. |
| `Fermat.PrimeDividesChoose` | externals/libtommath/bn_mp_prime_miller_rabin.c:61-67 | A prime divides the inner binomial coefficients of its row. |
| `Fermat.LittleFermat` | externals/libtommath/bn_mp_prime_miller_rabin.c:61-67 | b^(a-1) is one modulo a prime a that does not divide b. |
| `Fermat.RootsOfOne` | externals/libtommath/bn_mp_prime_miller_rabin.c:78-81 | Modulo a prime, one has only the square roots 1 and -1. |
| `Fermat.EuclidsLemma` | externals/libtommath/bn_mp_prime_miller_rabin.c:78-81 | A prime that divides a product divides a factor. |
| `PrimeTable.TablePrime` | externals/libtommath/bn_prime_tab.c:17-56 | All 256 entries of the table are prime and fit a digit. |
| `PrimeEntries.EntryComesAfter` | externals/libtommath/bn_prime_tab.c:17-56 | Every entry is the first number after the entry before it that passes trial division. |
| `PrimeEntries.TableAscends` | externals/libtommath/bn_prime_tab.c:17-56 | The entries ascend strictly. |
| `PrimeTable.TriedIffPrime` | externals/libtommath/bn_prime_tab.c:17-56 | Trial division by the numbers next to multiples of six, up to the square root, finds exactly the primes. |
| `PrimeTable.ListedIffPrime` | externals/libtommath/bn_prime_tab.c:17-56 | A number is in the table if and only if it is a prime of at most 1619. |
| `PrimeTable.EntryIsNthPrime` | externals/libtommath/bn_prime_tab.c:17-56 | Entry i is the prime with exactly i smaller ones. |
| `PrimeTable.LoadTable` | externals/libtommath/bn_prime_tab.c:17-56 | What the loops read are the first 256 primes in order, and all primes up to 1619. |
| `PrimeTable.PrimeOrSmallDivisor` | externals/libtommath/bn_mp_prime_is_divisible.c:23-45 | Below 1621 squared trial division by the table is complete: a number is prime or has a prime divisor up to 1619. |
| `Primality.SplitPredecessor` | externals/libtommath/bn_mp_prime_miller_rabin.c:38-59 | a - 1 is an odd number r doubled s times. |
| `StrongTests.TestedWith` | externals/libtommath/bn_mp_prime_miller_rabin.c:46-59 | The split of a - 1 into an odd number and its twos is unique, so the test may be made with any. |
| `StrongTests.UnitBefore` | externals/libtommath/bn_mp_prime_miller_rabin.c:69-90 | For a prime, a chain that reaches one starts with one or has a link that is minus one. |
| `StrongTests.PrimePasses` | externals/libtommath/bn_mp_prime_miller_rabin.c:18-24 | A prime passes the strong test for every base that it does not divide. |
| `StrongTests.PassesIsFermat` | externals/libtommath/bn_mp_prime_miller_rabin.c:18-24 | An odd number that passes for b has b^(a-1) = 1 modulo a. |
| `StrongTests.NoneAfterOne` | externals/libtommath/bn_mp_prime_miller_rabin.c:78-81 | After a link that is one no link is minus one, so ending the loop there is right. |
| `StrongTests.EvenPasses` | externals/libtommath/bn_mp_prime_miller_rabin.c:53-93 | An even number passes exactly when b^(a-1) is one or minus one modulo a. |
| `StrongTests.EvenImpostor` | externals/libtommath/bn_mp_prime_miller_rabin.c:53-93 | Every even number above two passes for the base a - 1, without satisfying the congruence of Fermat. |
| `Primality.FirstLink` | externals/libtommath/bn_mp_prime_miller_rabin.c:38-67 | n1 = a - 1, the twos of a - 1, and y = b^r mod a when nothing disturbs the power; a zero y has zero as its lowest word on every route but one, and there zero or one of the unwritten words. |
| `Primality.OneIsTheEnd` | externals/libtommath/bn_mp_prime_miller_rabin.c:78-81 | If the square of a link that is not minus one is one, no link passes. |
| `Primality.SquaringLoop` | externals/libtommath/bn_mp_prime_miller_rabin.c:70-90 | The loop ends with true exactly when one of the links b^r, b^2r, ... below b^(2^s r) is minus one modulo a; a link that becomes one ends it with false. |
| `Primality.ChainTest` | externals/libtommath/bn_mp_prime_miller_rabin.c:69-93 | True exactly when b^r is one or one of the links is minus one, except that a zero whose lowest word was never written may read as one. |
| `Primality.SqrMod` | externals/libtommath/bn_mp_sqrmod.c:19-36 | The square modulo a; a zero has a zero word. |
| `Primality.MillerRabin` | externals/libtommath/bn_mp_prime_miller_rabin.c:25-98 | Refused for a base of at most one and for numbers that are not positive.  If no unwritten word disturbs the power and the modulus is not one of the bad ones, the answer is that of the strong probable-prime test, yes and no, for every number above one, except that an even one whose power is zero by Barrett reduction may pass if an unwritten word is one; so primes pass, odd numbers that pass satisfy the congruence of Fermat, and one passes. |
| `Primality.UncopiedRoundQuiet` | externals/libtommath/bn_mp_prime_miller_rabin.c:61-67 | No word can disturb a round in whose power no product takes the comba branch. |
| `Primality.ShortRoundQuiet` | externals/libtommath/bn_mp_prime_miller_rabin.c:61-67 | Nor one with a modulus of at most 255 digits. |
| `Primality.IsDivisible` | externals/libtommath/bn_mp_prime_is_divisible.c:23-45 | True exactly if a prime of at most 1619 divides the magnitude. |
| `PrimeTable.DividedFacts` | externals/libtommath/bn_mp_prime_is_prime.c:46-54 | A number with a small prime divisor that is no small prime is not prime and not one. |
| `Primality.EqualsEntry` | externals/libtommath/bn_mp_prime_is_prime.c:38-44 | True exactly for the primes up to 1619, unless a zero reads as something else. |
| `Primality.Rounds` | externals/libtommath/bn_mp_prime_is_prime.c:56-72 | Refused exactly for numbers that are not positive; for an odd number above one, in quiet rounds, true exactly when it passes the strong test for each of the first t entries; true for one. |
| `Primality.PassedIff` | externals/libtommath/bn_mp_prime_is_prime.c:61-72 | The first t entries as bases are the primes with fewer than t smaller ones. |
| `Primality.PrimePassesRounds` | externals/libtommath/bn_mp_prime_is_prime.c:61-72 | A prime above 1619 passes all rounds. |
| `Primality.PrimeIsPrime` | externals/libtommath/bn_mp_prime_is_prime.c:25-78 | For every number: primes up to 1619 are accepted, other multiples of them rejected; any other number above one is accepted exactly when it passes the strong test for the first t primes, when no round counts an unwritten word other than zero; so every prime is accepted, and below 1621 squared exactly the primes are; one is accepted, negative numbers without a small divisor and other numbers of rounds are refused. |
| `RadixText.DigitRoundTrip` | externals/libtommath/bn_mp_radix_smap.c:18-19 | A digit's character reads as the digit in every radix in which the digit occurs, also where case is folded. |
| `RadixText.CharOfMap` | externals/libtommath/bn_mp_radix_smap.c:18-19 | The character of each of the 64 digits is the one at its place in the map, written out. |
| `RadixText.DigitOfStands` | externals/libtommath/bn_mp_read_radix.c:47-62 | The digit found is the one for which the character stands in the map, a small letter below radix 36 for the capital 26 places before it, and there is no other. |
| `RadixText.FindDigit` | externals/libtommath/bn_mp_read_radix.c:47-56 | The loop over the map finds the digit, after folding the case below radix 36. |
| `RadixText.RoundTrip` | externals/libtommath/bn_mp_toradix.c:19-69 | Reading the text of a number gives the number back, for every signed number and every radix from 2 to 64. |
| `RadixText.Reverse` | externals/libtommath/bn_reverse.c:19-34 | The stretch of the buffer is reversed in place and the rest untouched. |
| `RadixText.PrintDigits` | externals/libtommath/bn_mp_toradix.c:49-57 | The digit loop writes the numeral backwards. |
| `RadixText.NumeralAt` | externals/libtommath/bn_mp_toradix.c:49-62 | The character at place k from the right is that of the digit of weight radix^k. |
| `RadixText.TextShows` | externals/libtommath/bn_mp_toradix.c:19-69 | The text of a number is a minus sign if it is negative, the map's characters for all digits of the magnitude, and no zero in front. |
| `RadixText.ToRadix` | externals/libtommath/bn_mp_toradix.c:19-69 | The buffer holds the text of the number and a terminator: a minus sign if it is negative, then for each place k from the right the character of the map at (magnitude / radix^k) mod radix, no digit left out and no zero in front; a radix out of range is refused. |
| `RadixText.AppendDigit` | externals/libtommath/bn_mp_read_radix.c:62-68 | One more digit on the right. |
| `RadixText.ReadIsWeighted` | externals/libtommath/bn_mp_read_radix.c:45-73 | Reading from left to right gives the weighted sum of the digits. |
| `RadixText.ValueIsWeighted` | externals/libtommath/bn_mp_read_radix.c:32-79 | So the value of a text is that sum, for the digits its characters stand for in the map. |
| `RadixText.ReadRadix` | externals/libtommath/bn_mp_read_radix.c:19-80 | The number becomes the weighted sum of the digits that the text spells after an optional minus sign, up to the first character that stands for no digit of the radix, with that sign; a radix out of range is refused. |
| `SequenceNumbers.Set` | src/bdCore/bdContainers/bdSequenceNumber.cpp:83-144 | The branches of set compute one unrolled number. |
| `SequenceNumbers.UnrolledIsNearest` | src/bdCore/bdContainers/bdSequenceNumber.cpp:83-144 | It has the wire number's residue, and no number with that residue is nearer to the reference. |
| `SequenceNumbers.TieInRange` | src/bdCore/bdContainers/bdSequenceNumber.cpp:83-144 | Of two numbers equally near it is the one in the reference's own range. |
| `SequenceNumbers.UnrollsTrue` | src/bdCore/bdContainers/bdSequenceNumber.cpp:83-144 | A number less than half the range away from the reference is recovered from its wire number. |
| `ReceiveWindow.HeldSizeUpdate` | src/bdConnection/bdReliableReceiveWindow.cpp:40-41 | Filling or emptying a slot changes the sum of the held sizes by the size of its chunk. |
| `ReceiveWindow.SlotsDiffer` | src/bdConnection/bdReliableReceiveWindow.cpp:37-38 | Two numbers of one window of 128 do not share a slot. |
| `ReceiveWindow.CloseBlock` | src/bdConnection/bdReliableReceiveWindow.cpp:85-88 | Ending the open block extends an exact, ascending list of gap blocks. |
| `ReceiveWindow.Window.constructor` | src/bdConnection/bdReliableReceiveWindow.cpp:15-18 | The empty window satisfies the invariant. |
| `ReceiveWindow.Window.Add` | src/bdConnection/bdReliableReceiveWindow.cpp:20-58 | A chunk is accepted exactly when its number is less than 128 ahead of the messages handed out and is below the newest or fits the credit of 15000; the state goes where the specification sends it, and the acknowledgement is exact afterwards. |
| `ReceiveWindow.Window.Accept` | src/bdConnection/bdReliableReceiveWindow.cpp:35-57 | What add does with a chunk it does not refuse: stored unless handed out or held, and a new exact acknowledgement. |
| `ReceiveWindow.Window.Place` | src/bdConnection/bdReliableReceiveWindow.cpp:35-55 | A chunk inside the window is stored unless its number is held; the second overflow branch is unreachable. |
| `ReceiveWindow.Window.Store` | src/bdConnection/bdReliableReceiveWindow.cpp:38-45 | Slot, credit and newest number after storing a new chunk. |
| `ReceiveWindow.Window.AdvanceCumulative` | src/bdConnection/bdReliableReceiveWindow.cpp:65-69 | The cumulative acknowledgement becomes the largest n with 0..n received. |
| `ReceiveWindow.Window.ScanStep` | src/bdConnection/bdReliableReceiveWindow.cpp:76-100 | One number of the scan keeps the blocks exact for everything scanned so far. |
| `ReceiveWindow.Window.GapBlocks` | src/bdConnection/bdReliableReceiveWindow.cpp:75-105 | The gap blocks are ascending, disjoint and not adjacent, and cover exactly what was received above the cumulative acknowledgement. |
| `ReceiveWindow.Window.CalculateAck` | src/bdConnection/bdReliableReceiveWindow.cpp:60-107 | The new acknowledgement describes the state exactly; none is made while number 0 is missing. |
| `ReceiveWindow.Window.GetDataToSend` | src/bdConnection/bdReliableReceiveWindow.cpp:109-124 | An acknowledgement that goes out is exact, and is pending no longer. |
| `ReceiveWindow.Window.Release` | src/bdConnection/bdReliableReceiveWindow.cpp:138-141 | Emptying the slot of the next number keeps ring, credit and history in step. |
| `ReceiveWindow.Window.GetNextToRead` | src/bdConnection/bdReliableReceiveWindow.cpp:126-156 | A message is handed out if and only if the next number has been received, and it is the one received for it, once and in order; the credit is released; the other branch is unreachable. |
| `ReceiveWindow.Run` | src/bdConnection/bdReliableReceiveWindow.cpp:20-156 | Over every run of arrivals with loss, reordering and duplication, packets and reads: every response is the one that the events before it call for, what is handed out is lawful (RunLaws), and, for streams of up to 32768 chunks or arrivals that stay near, every response is truthful, which is said in terms of the events and responses alone (NearRunIsTruthful). |
| `ReceiveWindow.NearRunIsTruthful` | src/bdConnection/bdReliableReceiveWindow.cpp:20-156 | An arrival is accepted exactly when it is less than 128 ahead of the messages handed out and either a later number has been accepted or the distinct accepted chunks still held and itself are at most 15000 long; a read hands out chunk i of the stream exactly when it has been accepted; an acknowledgement goes out exactly when one is owed and the packet has room, and lists exactly the accepted numbers and the credit left. |
| `ReceiveWindow.ArriveMirrored` | src/bdConnection/bdReliableReceiveWindow.cpp:20-58 | One arrival, seen from the responses: accepted exactly when there is room. |
| `ReceiveWindow.ReadMirrored` | src/bdConnection/bdReliableReceiveWindow.cpp:126-156 | One read, seen from the responses: the next chunk exactly when it has been accepted. |
| `ReceiveWindow.ReportMirrored` | src/bdConnection/bdReliableReceiveWindow.cpp:60-124 | An acknowledgement, seen from the responses: it covers exactly the accepted numbers. |
| `ReceiveWindow.OwedNext` | src/bdConnection/bdReliableReceiveWindow.cpp:109-124 | What each event does to the debt of an acknowledgement. |
| `ReceiveWindow.LargestIsLargest` | src/bdConnection/bdReliableReceiveWindow.cpp:42-45 | The largest accepted number is the largest of them. |
| `ReceiveWindow.HandedOutIs` | src/bdConnection/bdReliableReceiveWindow.cpp:126-156 | What a run returns is what its responses hand out, in order. |
| `ReceiveWindow.WholeStream` | src/bdConnection/bdReliableReceiveWindow.cpp:20-156 | A run that gets every chunk accepted and then reads as many times as there are chunks hands out the whole stream. |
| `ReceiveWindow.NextIsAccepted` | src/bdConnection/bdReliableReceiveWindow.cpp:24-33 | The window does not lock up: the next chunk to hand out is accepted whenever it fits the credit on its own. |
| `ReceiveWindow.ReceivedIffTaken` | src/bdConnection/bdReliableReceiveWindow.cpp:20-58 | A number is received exactly when a chunk that arrived before was taken for it. |
| `ReceiveWindow.TakenOnce` | src/bdConnection/bdReliableReceiveWindow.cpp:35-55 | No number is taken twice, whatever is duplicated. |
| `ReceiveWindow.DeliveredFrom` | src/bdConnection/bdReliableReceiveWindow.cpp:126-156 | Every message handed out was asked for by a read, and comes from the chunk that was taken for its number before that. |
| `ReceiveWindow.DeliveredCount` | src/bdConnection/bdReliableReceiveWindow.cpp:126-156 | There are as many messages as reads that found the next number received. |
| `ReceiveWindow.CountersInRange` | src/bdConnection/bdReliableReceiveWindow.cpp:20-58 | The newest number stays within one window of what has been handed out, and no received number is above it. |
| `ReceiveWindow.InWireOrder` | src/bdConnection/bdReliableReceiveWindow.cpp:126-156 | Messages come out with the wire numbers 0, 1, 2, ..., whatever the run. |
| `ReceiveWindow.TakenTruly` | src/bdCore/bdContainers/bdSequenceNumber.cpp:83-144 | A chunk near the newest number is taken for its true number. |
| `ReceiveWindow.PrefixOfStream` | src/bdConnection/bdReliableReceiveWindow.cpp:20-156 | If no chunk arrives half the range away from the newest, what is handed out is a prefix of the stream. |
| `ReceiveWindow.ShortStreamIsNear` | src/bdConnection/bdReliableReceiveWindow.cpp:20-156 | For streams of up to 32768 chunks that is always so. |
| `ReceiveWindow.RunLaws` | src/bdConnection/bdReliableReceiveWindow.cpp:20-156 | All of this for the whole run. |
| `ReceiveWindow.NumbersFit` | src/bdCore/bdContainers/bdSequenceNumber.cpp:83-144 | No number and no sum overflows 32 bits as long as fewer than about 2^31 messages have been handed out. |

## Left out

- Primality.MillerRabin: for a number of more than 255 digits that goes to the Montgomery form, a run that counts an
  unwritten word other than zero is not covered (`RoundQuiet`), nor words that are no digits;
  `Primality.UncopiedRoundQuiet` says when no word can count.  Whether such a word can turn a prime away is not decided.
  For an even number that goes to the Barrett form and divides b^(a-1) (`BlindZero`), y is a zero whose lowest word may
  be one of the unwritten words, which mp_cmp_d reads; the answer is no as long as none of them is one (`IsWord`), and
  otherwise not stated.  Nor is it for the even numbers whose powers mp_exptmod gets wrong (`ModularPower.BadModulus`).
- Primality.ChainTest: the same zero (`ReadsRight`).
- Primality.FirstLink: the same zero.
- Primality.Rounds: the same for every round (`AllRoundsQuiet`); for even numbers, which do not get there, nothing.
- Primality.PrimeIsPrime: the same for numbers of more than 255 digits (`QuietRounds`).
- Exponentiation.ExptmodMontgomery: above 255 digits the value is stated for words that are proper digits; for words
  with higher bits set only that the result is below the modulus.
- Montgomery.BaselineReduce: the value is stated for a buffer of digits; for one with words that are no digits only that
  the result is below the modulus, since a carry word may wrap around.
- Inverse.InvmodFast: a first argument that an odd b divides is excluded, because the loop does not end then
  (`Inverse.NeverEnds`).
- Inverse.FastLoop: requires a residue that is not zero for the same reason.
- Inverse.Invmod: excludes the same pairs.
- ModularPower.Exptmod: excludes the same pairs for a negative exponent, because mp_invmod is called for them.
- ModularPower.ExptmodNegative: excludes the same pairs.
- ToomThree.ExactIff: only for a shorter operand of up to 3113 digits; above that the sub-products of sub-products may
  lose borrows, too.  Then `ToomThree.Times` says what comes out and `ToomThree.TimesError` how far off it can be, but
  whether lost borrows of different levels can cancel is not decided.
- ToomThree.TimesComputed: needs exact sub-products, which `ToomThree.OneLevel` gives up to 1040 digits.
- GreatestCommonDivisor.EuclidFails: one family of failing operands; for a single pair beyond the digit counts of
  `GreatestCommonDivisor.BezoutUpToIff` the exact products of its run (`ExactEuclid`) are a sufficient condition.
- ReceiveWindow.Window.Add: the wrap-around of the 32-bit unrolled number, which is undefined in C++, is not modelled;
  `ReceiveWindow.NumbersFit` says for how long none happens.  Null chunks are not modelled; the debug assertions inside
  calculateAck are proved instead.
- ReceiveWindow.Run: for streams of more than 32768 chunks, the prefix property and the truth of the responses need that
  no chunk arrives half the number range or more away from the newest; a 16-bit number cannot tell it from another one
  then.
- Memory failures (MP_MEM), malloc, realloc and free, mp_clear and the initialisers: allocation always succeeds.
- The early return of s_is_power_of_two, which only saves the search loop.
- mp_dr_setup and mp_dr_reduce: the branch that calls them is proved unreachable from mp_exptmod.
- The SMALL version of mp_div, and configurations other than the default one (8, 16, 31, 60 bits, MP_LOW_MEM).
- mp_n_root, mp_prime_next_prime, mp_jacobi, mp_is_square and mp_prime_random_ex: no termination argument in the code,
  or theory that this code does not decide.
- The bitwise and, or and xor functions, mp_addmod, mp_submod and the other one-line wrappers.
- The send window and the unicast connection: their text does not store added chunks and never frees acknowledged ones.
- Packet and chunk serialisers; bdBytePacker is not part of this model.
- Sockets, router, DTLS, NAT, lobby, authentication, ciphers, timers and logging: input and output or unseen libraries.
