# Meanwhile, in Dafny

A model of the core of Meanwhile, a C library for clients of the Sametime community
protocol, with proofs of what that core is for. The model keeps the form of the C code:
integers are objects with a digit array that is changed in place, block and stream
routines work on byte arrays, a channel, a session, the awareness service and a buddy
list are objects whose methods update their fields. Each method is proved against a
specification on values, and the properties are proved about that specification, for all
inputs, all runs and all ways of cutting a stream.

Integers of the model are unbounded; a 16-bit digit, a 32-bit word, a 16-bit shift count
or a `guint32` counter is written out where the C code depends on its width. The ints of
the RC2 routines are 32-bit vectors, so their high bits are as unmasked as in C.

## Structure

- Multi-precision integers (`src/mpi/mpi.c`): `Radix` (digit strings and their value),
  `MpInts` (the object, its representation invariant, copying and comparing), `MpShift`,
  `MpArith` and `MpSigned` (addition and subtraction, of magnitudes and of signed
  numbers under aliasing), `MpMul` (product and square), `MpDiv`, `MpLongDiv` and
  `MpQuotient` (normalisation, quotient digits, long division, `mw_mp_div`, `mw_mp_mod`),
  `MpModular` (Barrett reduction and powers), `MpNumTheory` (square root), `MpGcd`,
  `MpXgcd` (extended gcd and inverse), `MpBinary` (big-endian strings); `Numbers` holds
  the number theory.
- Ciphers (`src/cipher.c`): `Rc2Words` and `Rc2` (RFC 2268, sections 3 and 4, and the
  block routines that refine it), `KeyExpand` (section 2), `Rc2Vectors` (two of the
  test vectors in section 5), `Cbc` (padding and chaining), `DiffieHellman`.
- Channels (`src/channel.c`): `ChannelSets` (ids), `ChannelState` (every operation as a
  function from a state to a state, the messages sent and the payloads delivered),
  `Channels` (the object, each method proved to have that effect) and `ChannelPair` (two
  ends and a FIFO relay as a state machine).
- Stream and wire format (`src/session.c`, `src/message.c`, `src/common.c`):
  `SessionRecv`, `Bytes`, `Buffers`, `Structures`, `Messages`, `MessageForms` (every message
  field by field, and what of it survives), and `MessageStream`, which puts them together.
- Awareness (`src/srvc_aware.c`): `Aware`. Buddy lists (`src/st_list.c`): `BuddyText`
  and `SametimeLists`. `Options` is the optional value that all of these share, and
  `Sequences` holds a fact about concatenation.

Main results: `MpLongDiv.MagDiv`, `MpMul.MagSqr`, `MpModular.Reduce` and `ExptMod` with `ExptModIff`,
`MpNumTheory.Sqrt`, `MpGcd.Gcd`, `MpXgcd.Xgcd` and `Invmod`, `MpSigned.Add` and `Sub`;
`Rc2.EncryptBlock` with `DecryptEncryptBytes` and `Rc2Vectors.Vector128`,
`Cbc.Conversation` with `ChainByte`, `DiffieHellman.Agreement`; `ChannelPair.Delivery`,
`Completeness`, `NothingLost`, `Encrypts` and `AgreedKeys`;
`SessionRecv.ChunkIndependence`, `MessageForms.RoundTrip` and `MessageStream.Exchange`;
`Aware.AwareService.Watching`; `SametimeLists.RoundTripExact`.

## Where the code differs from what it says

Each of these names the lemma or the contract that says when the code does what it says,
or that shows an input for which it does not.

- `s_mw_mp_div` passes the logarithm of a power of two as a 16-bit digit. A divisor 2^k
  with k >= 65536 acts as 2^(k mod 65536); the result is right exactly when the dividend
  is below that (`MpDiv.DivisionExact`). `mw_mp_div` (`MpQuotient.DivisorUsedExact`),
  `mw_mp_mod` (`MpQuotient.ModExact`), `mw_mp_invmod` (`MpXgcd.InverseExact`) and
  `mw_mp_sqrt` inherit it: for a = 2^65535 the result is negative
  (`MpNumTheory.SqrtCutDown`), below that it is the root (`MpNumTheory.SqrtExact`), and
  above the iterates are the right ones exactly when none of them is such a power of two
  (`MpNumTheory.SqrtUncut`).
- The comment on the quotient digit says that the guess is backed off once or twice. That
  holds exactly when the partial remainder and the divisor differ in length or in their
  top digit, or the divisor has one digit (`MpLongDiv.QuotientDigit`); otherwise the guess
  is RADIX - 1, the digit is 1 (`MpDiv.Guess`), and there are RADIX - 2 turns.
- The comment in `s_mw_mp_mul_d` says that its test guarantees enough storage. The test
  ignores the carry into the top digit (`MpDiv.MulDigitCarry`); it is sufficient for the
  normalised divisors of division (`MpLongDiv.RoomForDigit`).
- `mw_mp_gcd` rebuilds the common power of two from a 16-bit count: right exactly when
  the count is below 65536 (`MpGcd.GcdExact`).
- `s_mw_mp_reduce` passes a bit count as a digit. All numbers are reduced to their
  remainder exactly when the modulus has at most 4094 digits (`MpModular.ReduceIff`); with
  more, a number below the modulus is reduced to zero (`MpModular.ReduceFails`).
- `mw_mp_exptmod` returns 1 for m = 1 and b = 0 (`MpModular.ExptModExact`). Its other
  powers are all right exactly when the modulus has at most 4094 digits
  (`MpModular.ExptModIff`); with more, already a first power is zero
  (`MpModular.ExptModFails`).
- `mw_mp_mod` with the output placed over the modulus adds a negative remainder to itself
  (`MpQuotient.ModExact`). In `mw_mp_invmod` that leaves an inverse for the modulus 3 alone
  (`MpXgcd.InverseOver`).
- `mw_mp_xgcd` documents a*x + b*y = g; its coefficients are those of |a| and |b|. The
  identity holds for two positive inputs, never for two negative ones, and for one
  negative input exactly when its coefficient is zero (`MpXgcd.XgcdSigns`,
  `MpXgcd.XgcdNegative`). For a = 0 the halving loop does not end
  (`MpXgcd.HalvingEnds`), so `MpXgcd.Xgcd` excludes it. `mw_mp_invmod` works for negative a all the same, since the sign is written
  over the result; for m = 1 that makes a negative zero of it (`MpXgcd.Invmod`).
- The comment on `mwKeyExpand` says that it does not seem to be the key expansion of RC2;
  it is the one of RFC 2268 for 1024 effective bits (`KeyExpand.KeyExpand`).
- `mw_mp_set_rand` masks the first of its 65 bytes with `0xff >> 8`, which is zero
  (`DiffieHellman.RandKeypair`).
- `mwChannel_newOutgoing` can return an id of the incoming range, or that of the master
  channel, once its counter gets there; the condition is exact for every counter
  (`ChannelSets.OutgoingExact`).
- A frame of 2^31 bytes or more begins with a byte that the receiver takes for a
  keep-alive, and does not come back (`SessionRecv.TooLong`).
- A string of more than 65535 bytes loses text (`Buffers.StringExact`), announcements come
  back with their recipients reversed (`Messages.GetAnnounce`), and the time of a status is
  written as zero (`Structures.GetStatus`).
- A group with an empty alias comes back with the word behind it as its alias
  (`BuddyText.EmptyAliasLost`).

## Model

| member | source | states |
|---|---|---|
| `MpInts.MpInt.Size` | src/mpi/mpi.c:280-293 | a new integer is zero, not negative, with every allocated digit zero |
| `MpInts.MpInt.Copy` | src/mpi/mpi.c:307-324 | a copy has the value and the digits of its source, in a buffer of exactly that many digits |
| `MpInts.MagBounds` | src/mpi/mpi.c:2783-2796 | a clamped number of n digits lies in [B^(n-1), B^n), and is zero exactly when it is the single digit 0; this is what every comparison by length rests on |
| `MpInts.Grow` | src/mpi/mpi.c:2664-2687 | the value and the digits in use survive growing, the zero tail is kept, and the new size is rounded up to the precision |
| `MpInts.Pad` | src/mpi/mpi.c:2694-2709 | padding changes no value: the digits above the old ones are zero already, in the old buffer and in a new one |
| `MpInts.Clamp` | src/mpi/mpi.c:2783-2796 | clamping drops exactly the leading zeros: the value is the same, the top digit is not zero, zero loses its sign |
| `MpInts.Exch` | src/mpi/mpi.c:2804-2812 | the two numbers change places, buffers and all |
| `MpInts.Copy` | src/mpi/mpi.c:338-383 | the target gets value and sign of the source, in place or in a new buffer, also onto itself |
| `MpInts.Zero` | src/mpi/mpi.c:463-472 | the number is zero and its whole buffer is |
| `MpInts.Set` | src/mpi/mpi.c:478-486 | the number is the digit, and nothing of the old one is left |
| `MpInts.CmpMag` | src/mpi/mpi.c:3800-3824 | the result orders the magnitudes, both ways, though only lengths and digits are compared |
| `MpInts.CmpMagDigit` | src/mpi/mpi.c:3831-3846 | the result orders the magnitude and the digit |
| `MpInts.CmpZero` | src/mpi/mpi.c:1779-1788 | the result is the sign of the value |
| `MpInts.Cmp` | src/mpi/mpi.c:1815-1836 | the result orders the signed values |
| `MpInts.IsOdd` | src/mpi/mpi.c:1890-1896 | true exactly for the odd numbers of either sign |
| `MpShift.BitsDown` | src/mpi/mpi.c:3042-3049 | digits shifted down by b bits are the quotient by 2^b, and the bits that fall out are the remainder |
| `MpShift.BitsUp` | src/mpi/mpi.c:2994-3018 | digits shifted up by b bits, with the bits carried out of the top, are the product with 2^b |
| `MpShift.Lshd` | src/mpi/mpi.c:2828-2854 | the magnitude is multiplied by B^p |
| `MpShift.Rshd` | src/mpi/mpi.c:2866-2895 | the magnitude is divided by B^p, rounding down; a result of zero loses its sign |
| `MpShift.Mod2d` | src/mpi/mpi.c:2951-2970 | the magnitude is reduced modulo 2^d, and the representation stays valid |
| `MpShift.Div2d` | src/mpi/mpi.c:3034-3053 | the magnitude is divided by 2^d, rounding down |
| `MpShift.Div2` | src/mpi/mpi.c:2902-2906 | the magnitude is halved; an even signed value is halved exactly |
| `MpShift.Mul2d` | src/mpi/mpi.c:2981-3023 | the magnitude is multiplied by 2^d |
| `MpShift.Mul2` | src/mpi/mpi.c:2912-2940 | the magnitude is doubled, and the signed value with it |
| `MpShift.TwoExpt` | src/mpi/mpi.c:3710-3726 | the number is 2^k |
| `MpArith.AddDigits` | src/mpi/mpi.c:3296-3302 | the sum of n digits and its carry of at most 1, also when both operands are one buffer |
| `MpArith.SubDigits` | src/mpi/mpi.c:3347-3354 | the difference of n digits with its borrow, kept in a word that wraps |
| `MpArith.MagAdd` | src/mpi/mpi.c:3278-3328 | |a| becomes |a| + |b|, with b = a allowed; the zero tail and the top digit stay right |
| `MpArith.MagSub` | src/mpi/mpi.c:3335-3377 | for |a| >= |b|, |a| becomes |a| - |b| and MP_RANGE is not reported |
| `MpArith.MagAddDigit` | src/mpi/mpi.c:3101-3129 | the magnitude grows by the digit |
| `MpArith.MagSubDigit` | src/mpi/mpi.c:3136-3164 | for a magnitude of at least d, it shrinks by d and MP_RANGE is not reported |
| `MpSigned.Add` | src/mpi/mpi.c:869-957 | the exact signed sum in c, valid again, for every way in which a, b and c are the same object |
| `MpSigned.Sub` | src/mpi/mpi.c:969-1043 | the exact signed difference in c, valid again, for every way in which a, b and c are the same object |
| `MpSigned.AbsValue` | src/mpi/mpi.c:816-829 | the absolute value |
| `MpSigned.Neg` | src/mpi/mpi.c:841-857 | the negated value; zero is not made negative |
| `MpSigned.Mul` | src/mpi/mpi.c:1055-1083 | the exact signed product under every aliasing, with no negative zero |
| `MpSigned.Sqr` | src/mpi/mpi.c:1116-1132 | the exact square, never negative |
| `MpSigned.AddDigit` | src/mpi/mpi.c:537-558 | the signed value plus the digit |
| `MpSigned.SubDigit` | src/mpi/mpi.c:571-600 | the signed value minus the digit |
| `MpMul.MulRow` | src/mpi/mpi.c:3408-3418 | one row adds d * a, moved up by ix, to the partial product, and its last carry lands on a digit that was zero |
| `MpMul.MulDigits` | src/mpi/mpi.c:3395-3419 | the rows together are the product |
| `MpMul.DoubleAdd` | src/mpi/mpi.c:3515-3544 | twice a product of digits plus a digit and a carry equals the 32-bit word plus one overflow bit: the three hand-made overflow tests never need a second bit, and the carry stays below 2^17 |
| `MpMul.SqrInner` | src/mpi/mpi.c:3494-3546 | the inner loop adds the square of one digit and twice its products with the higher ones |
| `MpMul.SqrRow` | src/mpi/mpi.c:3494-3564 | after a row the carry left over is at most 1, it lies inside the buffer of 2n digits, and adding it by + 1 leaves the row exact |
| `MpMul.PropagateOne` | src/mpi/mpi.c:3553-3564 | the carry of 1 runs up to the first digit that takes it |
| `MpMul.MagSqr` | src/mpi/mpi.c:3472-3574 | |a| becomes its exact square, in a new buffer |
| `MpDiv.IsPow2` | src/mpi/mpi.c:3856-3885 | the logarithm for a power of two, and -1 for exactly the other numbers |
| `MpDiv.DivisorOfPower` | src/mpi/mpi.c:3598-3605 | a divisor 2^k acts as 2^(k mod 65536), because the shift count is a 16-bit digit |
| `MpDiv.DivisionExact` | src/mpi/mpi.c:3598-3605 | quotient and remainder by the divisor really used are the right ones exactly when it was not cut down or the dividend is below it |
| `MpDiv.MulDigit` | src/mpi/mpi.c:3171-3212 | |a| becomes |a| * d when a carry out of the top digit is announced by the test on the top digit alone, or there is room, or there is no carry |
| `MpDiv.MulDigitCarry` | src/mpi/mpi.c:3178-3206 | the test alone is not enough: for the digits 0xFFFF, 0x5555 and d = 3 it sees no carry, but the product needs a third digit |
| `MpDiv.NormShift` | src/mpi/mpi.c:3077-3081 | the shift found is the one that brings the top digit to half the radix or more without a carry out |
| `MpDiv.Norm` | src/mpi/mpi.c:3073-3090 | dividend and divisor are multiplied by the same power of two and the divisor is normalised, so quotients stay the same |
| `MpDiv.GuessLow` | src/mpi/mpi.c:3643-3652 | the quotient of the leading digits, held below the radix, is never below the true quotient digit |
| `MpDiv.GuessHigh` | src/mpi/mpi.c:3643-3652 | for a divisor whose top digit is at least half the radix it is at most 2 above |
| `MpDiv.Guess` | src/mpi/mpi.c:3643-3652 | the guess is at least the true digit, and at most 2 above it exactly when not both lengths and top digits are equal for a divisor of several digits; when they are, it is RADIX - 1 and the digit is 1 |
| `MpDiv.EqualTops` | src/mpi/mpi.c:3643-3652 | for equal lengths and equal top digits of at least half the radix the true digit is 1 |
| `MpLongDiv.TryGuess` | src/mpi/mpi.c:3643-3657 | the product of guess and divisor is computed without running out of its buffer; the guess is within 2 of the digit exactly when the tops differ |
| `MpLongDiv.BackOff` | src/mpi/mpi.c:3659-3668 | the back-off loop ends with the true digit, in as many turns as the guess was too large by |
| `MpLongDiv.QuotientDigit` | src/mpi/mpi.c:3643-3679 | one quotient digit: q = rem / b, and rem mod b is left; the guess is backed off at most twice exactly when lengths or top digits differ, and otherwise RADIX - 2 times |
| `MpLongDiv.RoomForDigit` | src/mpi/mpi.c:3178-3192 | for a normalised divisor the incomplete storage test of s_mw_mp_mul_d is sufficient |
| `MpLongDiv.FindPartial` | src/mpi/mpi.c:3626-3637 | digits are brought down until the partial remainder reaches the divisor, with a zero entered in the quotient for each but the last |
| `MpLongDiv.DivLoop` | src/mpi/mpi.c:3622-3680 | the whole loop leaves a = quot * b + rem with rem < b, and ends |
| `MpLongDiv.MagDiv` | src/mpi/mpi.c:3587-3704 | long division is exact: |a| = q * d + r with 0 <= r < d, for every a and every b other than zero, where d is b, or the power of two that the shortcut uses for it |
| `MpLongDiv.Denormalised` | src/mpi/mpi.c:3682-3693 | shifting the remainder back undoes the normalisation and leaves the quotient as it is |
| `MpQuotient.DivisorUsedExact` | src/mpi/mpi.c:1149-1227 | the signed quotient and remainder are the right ones exactly when the divisor was not cut down |
| `MpQuotient.TruncatedUnique` | src/mpi/mpi.c:1149-1227 | there is only one quotient and remainder that round toward zero |
| `MpQuotient.Div` | src/mpi/mpi.c:1149-1227 | a = q * b + r, rounding toward zero, the remainder taking the sign of a; either output may be missing or be one of the inputs; MP_RANGE and nothing changed for b = 0 |
| `MpQuotient.Mod` | src/mpi/mpi.c:1359-1408 | what each of the three branches leaves in c, and MP_RANGE for a negative or zero modulus |
| `MpQuotient.ModExact` | src/mpi/mpi.c:1382-1404 | for every x and every m > 0 the value left by mw_mp_mod is x mod m exactly when |x| mod m is below the divisor really used, and c is not the modulus itself or there is no negative remainder |
| `MpModular.BarrettLow` | src/mpi/mpi.c:3751-3756 | the quotient estimated by Barrett reduction is never too large |
| `MpModular.BarrettHigh` | src/mpi/mpi.c:3751-3756 | and at most 2 too small, for x below B^2k |
| `MpModular.BarrettDifference` | src/mpi/mpi.c:3758-3776 | working modulo B^(k+1) loses nothing, and one correction by B^(k+1) is enough |
| `MpModular.WrappedExact` | src/mpi/mpi.c:3758-3776 | for at most 4094 digits the cut-down difference is the difference |
| `MpModular.Estimate` | src/mpi/mpi.c:3751-3756 | the first half of s_mw_mp_reduce computes the estimate from shifted copies, for any mu |
| `MpModular.EstimateExact` | src/mpi/mpi.c:3751-3756 | for mu = B^2k / m and x below B^2k the estimate is never too large and at most 2 too small |
| `MpModular.Difference` | src/mpi/mpi.c:3758-3776 | the second half leaves the difference of x and q * m, both cut to the bits that the 16-bit count names, plus B^(k+1) when that is negative |
| `MpModular.BackDown` | src/mpi/mpi.c:3778-3782 | the final loop leaves the remainder by m, and counts the quotient in turns |
| `MpModular.Reduce` | src/mpi/mpi.c:3745-3789 | for every x, modulus and mu the routine ends with the remainder by m of the cut-down difference; the last loop turns at most twice for mu = B^2k / m, x below B^2k and at most 4094 digits |
| `MpModular.ReduceExact` | src/mpi/mpi.c:3745-3789 | that value is x mod m for every modulus of at most 4094 digits, mu = B^2k / m and x below B^2k |
| `MpModular.ReduceFails` | src/mpi/mpi.c:3745-3789 | for every modulus of more digits, whatever mu is, the number 2^((16(k+1)) mod 65536), which is below the modulus, is reduced to zero |
| `MpModular.ReduceIff` | src/mpi/mpi.c:3745-3789 | so all x below B^2k are reduced to their remainder exactly when the modulus has at most 4094 digits |
| `MpModular.MakeMu` | src/mpi/mpi.c:1660-1664 | mu is what mw_mp_div makes of B^2k / m |
| `MpModular.MuExact` | src/mpi/mpi.c:1660-1664 | that is B^2k / m, rounded down, for at most 4094 digits |
| `MpModular.ExpBit` | src/mpi/mpi.c:1671-1705 | one bit of the exponent keeps s * x^r congruent to the wanted power, and both numbers below m |
| `MpModular.ExpDigit` | src/mpi/mpi.c:1670-1685 | the loop over a lower digit uses all of its sixteen bits: it leaves to the digits above what is left of the loops of the specification |
| `MpModular.ExpLast` | src/mpi/mpi.c:1688-1705 | the loop over the top digit stops when its bits are used up |
| `MpModular.ExptMod` | src/mpi/mpi.c:1637-1718 | for every a, b >= 0 and m > 0, of any length, c is the value of square-and-multiply with that reduction; MP_RANGE and nothing changed for every other b or m; all of a, b, m and c may be the same object |
| `MpModular.LoopExact` | src/mpi/mpi.c:1671-1705 | whenever the reduction is the remainder for the products of numbers up to m, square-and-multiply computes the power modulo m |
| `MpModular.ExptModExact` | src/mpi/mpi.c:1637-1718 | with a modulus of at most 4094 digits the value is a^b mod m exactly when m > 1 or b > 0; it is 1 for m = 1 with b = 0 |
| `MpModular.ExptModFails` | src/mpi/mpi.c:1637-1718 | for every modulus of more digits there is an a below m, other than zero, whose first power comes out as zero |
| `MpModular.ExptModIff` | src/mpi/mpi.c:1637-1718 | so all powers, but that of m = 1 with b = 0, are right exactly when the modulus has at most 4094 digits |
| `MpNumTheory.NewtonStep` | src/mpi/mpi.c:1484-1505 | an iterate above the root either steps down and stays above it, or is one above the root |
| `MpNumTheory.RunUnique` | src/mpi/mpi.c:1484-1505 | an iteration has one run from each start, so the result stated by Sqrt depends on a alone |
| `MpNumTheory.RunAbove` | src/mpi/mpi.c:1484-1505 | from any number above the root, below 2^65535, the iteration ends one above the root, and from its negation with the negation of that |
| `MpNumTheory.SqrtExact` | src/mpi/mpi.c:1461-1518 | for 2 <= a < 2^65535 the iteration from a ends one above the root, so the result is the exact floor root |
| `MpNumTheory.SqrtUncut` | src/mpi/mpi.c:1461-1518 | for every a >= 2 the iteration with exact division ends one above the root; the loop has the same iterates exactly when none of them is a power of two of at least 2^65535 with x*x - a > 2x |
| `MpNumTheory.SqrtResult` | src/mpi/mpi.c:1461-1518 | wherever the loop ends other than at zero, for whatever a >= 2, the last iterate is in size the root or one above it, and the result is the root exactly when that iterate is positive and above the root |
| `MpNumTheory.Sqrt` | src/mpi/mpi.c:1461-1518 | for every a for which the loop ends, b is one less than the last iterate, a itself for 0 and 1, and MP_RANGE with b unchanged for a negative a or an iterate of zero |
| `MpNumTheory.SqrtCutDown` | src/mpi/mpi.c:1461-1518 | for a = 2^65535 the loop ends with a negative number, and the result is the negated root less 2 |
| `MpGcd.CommonTwos` | src/mpi/mpi.c:1952-1957 | the common power of two is divided out of both numbers |
| `MpGcd.StripTwos` | src/mpi/mpi.c:1977-1979 | halving against an odd partner loses no common divisor |
| `MpGcd.SteinTurn` | src/mpi/mpi.c:1976-1997 | a turn keeps the common divisors, makes both numbers odd and does not let their sum grow |
| `MpGcd.SteinLoop` | src/mpi/mpi.c:1959-2001 | the loop ends with the greatest common divisor of the odd parts |
| `MpGcd.Gcd` | src/mpi/mpi.c:1922-2015 | for a and b not both zero, 2^k * g is their greatest common divisor, and c is 2^(k mod 65536) * g; MP_RANGE when both are zero |
| `MpGcd.GcdExact` | src/mpi/mpi.c:2003-2004 | that is the greatest common divisor exactly when k < 65536 |
| `MpXgcd.HalveCombination` | src/mpi/mpi.c:2117-2141 | halving the coefficients of an even u is exact: they are both even, or they are after adding the other pair |
| `MpXgcd.HalveStep` | src/mpi/mpi.c:2117-2141 | one halving turn keeps A*x + B*y = u and the common divisors |
| `MpXgcd.HalvingEnds` | src/mpi/mpi.c:2117-2128 | repeated halving reaches an odd number exactly from numbers other than zero, so the routine does not end for a = 0 |
| `MpXgcd.SubRow` | src/mpi/mpi.c:2143-2153 | subtracting the rows keeps both combinations |
| `MpXgcd.XgcdTurn` | src/mpi/mpi.c:2116-2153 | one turn of the main loop keeps both rows and the common divisors, and u + v shrinks |
| `MpXgcd.XgcdLoop` | src/mpi/mpi.c:2111-2168 | the loop ends with v the greatest common divisor, as the combination of x and y that C and D say |
| `MpXgcd.Xgcd` | src/mpi/mpi.c:2069-2176 | for a other than zero: g is the greatest common divisor of |a| and |b| and |a|*x + |b|*y = g; each output may be missing; MP_RANGE for b = 0 |
| `MpXgcd.XgcdSigns` | src/mpi/mpi.c:2061-2067 | the documented a*x + b*y = g holds exactly when no negative input has a coefficient other than zero: always for two positive inputs, never for two negative ones |
| `MpXgcd.XgcdNegative` | src/mpi/mpi.c:2061-2067 | it fails for -3 and 5, whatever the coefficients are |
| `MpXgcd.BezoutOne` | src/mpi/mpi.c:2190-2226 | coefficients of 1 make a and m coprime, and of any other greatest common divisor not |
| `MpXgcd.Invmod` | src/mpi/mpi.c:2190-2226 | the result code for all inputs, and the value for all: the coefficient x of |a| goes through mw_mp_mod and takes the sign of a; for m = 1 the result is zero, and a negative zero exactly when a is negative |
| `MpXgcd.InverseExact` | src/mpi/mpi.c:2190-2226 | with an output of its own the result is an inverse of a modulo m, for either sign of a, exactly when |x| mod m is below the divisor really used; it is at least 0 for a > 0 and below m |
| `MpXgcd.InverseOver` | src/mpi/mpi.c:2190-2226 | with the output over the modulus: if the remainder of x is negative, the result is an inverse exactly for m = 3 with |x| mod 3 = 1; otherwise under the same condition as with an output of its own |
| `Bytes.BigEndianInjective` | src/mpi/mpi.c:2329-2345 | strings of equal length that spell the same number are the same |
| `MpBinary.MinimalUnique` | src/mpi/mpi.c:2354-2375 | a number has one minimal big-endian string |
| `MpBinary.MinimalString` | src/mpi/mpi.c:2354-2375 | a string has the size announced for its number exactly when it has no leading zero byte or is one byte |
| `MpBinary.ReadUnsignedBin` | src/mpi/mpi.c:2329-2348 | the number is what the bytes spell, lowest last |
| `MpBinary.SetInt` | src/mpi/mpi.c:492-521 | the number is the long, also for the least one, whose labs overflows |
| `MpBinary.UnsignedBinSize` | src/mpi/mpi.c:2354-2375 | the size is the least number of bytes that hold the magnitude |
| `MpBinary.ReverseBytes` | src/mpi/mpi.c:2420-2427 | the first n bytes are turned around in place, the others kept |
| `MpBinary.ToUnsignedBin` | src/mpi/mpi.c:2381-2431 | exactly the announced number of bytes is written; they spell the magnitude, highest first; the bytes behind them stay |
| `MpBinary.Export` | src/cipher.c:203-207 | the exported key is the minimal big-endian string |
| `MpBinary.Import` | src/cipher.c:190-192 | the imported key is the number that the bytes spell |
| `MpBinary.ImportExport` | src/cipher.c:190-207 | import(export(x)) = x for every natural number |
| `MpBinary.ExportImport` | src/cipher.c:190-207 | export(import(s)) = s exactly for the strings without leading zero bytes |
| `Rc2Words.UnmixWord` | src/cipher.c:283-293 | undoing one mixing step gives the word back |
| `Rc2Words.LowAddend` | src/cipher.c:283-293 | the bits above the lowest sixteen of the ints never reach the sum that is mixed in |
| `Rc2.DecryptEncrypt` | src/cipher.c:363-404 | section 4 of RFC 2268 undoes section 3, for all keys and words |
| `Rc2.RoundsEncrypt` | src/cipher.c:280-301 | sixteen rounds with mashing after rounds 4 and 10 are the five-six-five schedule of RFC 2268 |
| `Rc2.RoundsDecrypt` | src/cipher.c:373-394 | counting down with the mashing undone at 5 and 11 is the reversed schedule |
| `Rc2.SelectIs` | src/cipher.c:296-299 | the key word that mashing selects is that of the number of the six lowest bits |
| `Rc2.MixRound` | src/cipher.c:281-293 | one round on unmasked ints is the mixing round of RFC 2268 on their low words |
| `Rc2.MashRound` | src/cipher.c:295-300 | the four key additions on unmasked ints are the mashing round |
| `Rc2.UnmixRound` | src/cipher.c:374-386 | one reversed round on unmasked ints is the reversed mixing round |
| `Rc2.UnmashRound` | src/cipher.c:388-393 | the four subtractions are the reversed mashing round |
| `Rc2.DecryptEncryptBytes` | src/cipher.c:363-404 | decryption inverts encryption for every 64-word key and every 8-byte block |
| `Rc2.EncryptBlock` | src/cipher.c:270-311 | the block in the buffer becomes its RC2 encryption under the low words of the key table; the other bytes stay |
| `Rc2.DecryptBlock` | src/cipher.c:363-404 | the block in the buffer becomes its RC2 decryption; the other bytes stay |
| `Rc2Vectors.Vector63` | src/cipher.c:241-303 | the test vector of section 5 of RFC 2268 for a key of eight zero bytes with 63 effective bits: eight zero bytes become ebb773f993278eff |
| `Rc2Vectors.Vector128` | src/cipher.c:241-303 | the test vector of section 5 of RFC 2268 for a key of sixteen bytes with 128 effective bits: eight zero bytes become 2269552ab0f85ca6 |
| `KeyExpand.FillKey` | src/cipher.c:250-258 | bytes beyond the key come from the table, as in the first loop of section 2 of RFC 2268 |
| `KeyExpand.KeyExpand` | src/cipher.c:241-266 | the expanded key is that of section 2 of RFC 2268 for 1024 effective bits, for keys of up to 128 bytes; longer ones are cut; an empty key changes nothing |
| `KeyExpand.AllBits` | src/cipher.c:260 | with 1024 effective bits nothing is masked and the second loop of RFC 2268 is empty: only one byte is looked up again |
| `Cbc.TrimPad` | src/cipher.c:326-339 | taking off as many bytes as the last one says leaves the message |
| `Cbc.ChainByte` | src/cipher.c:343-350 | every byte of the plaintext is mixed, by exclusive or, with the one eight places before it in the ciphertext, or with the initial value |
| `Cbc.UnchainByte` | src/cipher.c:433-443 | and so when it is decrypted |
| `Cbc.UnchainChain` | src/cipher.c:343-350 | decrypting a chain of blocks gives the blocks back and leaves the same chaining value |
| `Cbc.OpenSeal` | src/cipher.c:314-351 | a sealed message opens to itself; the ciphertext is as long as the next multiple of 8 strictly above the message; the chaining values agree |
| `Cbc.Conversation` | src/cipher.c:407-449 | for any sequence of messages, from equal key and chaining value, all are decrypted to what they were, and the chaining values are equal after them |
| `Cbc.ConversationPrefix` | src/cipher.c:407-449 | and after every single one of them |
| `Cbc.EncryptExpanded` | src/cipher.c:314-351 | the output array is the sealed message, every byte of it given by its block cipher and the byte before it, with a padding whose bytes are all its length; the iv array holds the last block |
| `Cbc.DecryptExpanded` | src/cipher.c:407-449 | for whole blocks, the output array holds the decrypted blocks, byte by byte, the length is what the last byte says, and the iv array holds the last ciphertext block |
| `DiffieHellman.SametimeGroup` | src/cipher.c:74-88 | the constants of the protocol are a modulus of 64 bytes above 1 and a base that fits a digit |
| `DiffieHellman.PowersCommute` | src/cipher.c:169-176 | (g^x mod p)^y = (g^y mod p)^x modulo p |
| `DiffieHellman.Agreement` | src/cipher.c:147-207 | two parties that exchange exported public keys export byte-identical shared secrets |
| `DiffieHellman.RandKeypair` | src/cipher.c:130-158 | the private key is what the 65 random bytes spell with the first one cleared, and the public key is base^private mod prime |
| `DiffieHellman.CalculateShared` | src/cipher.c:169-176 | the shared secret is remote^private mod prime |
| `DiffieHellman.SharedKey` | src/cipher.c:672-704 | from the exported remote key: the exported secret, and, when it has 16 bytes, the key expanded from its last 16 |
| `DiffieHellman.SameKey` | src/cipher.c:672-704 | both parties expand the same key whenever the secret has at least 16 bytes |
| `DiffieHellman.ExportBytesMinimal` | src/cipher.c:203-207 | every number has a minimal big-endian string |
| `DiffieHellman.SharedKeyAgrees` | src/cipher.c:672-704 | either both secrets have sixteen bytes or neither has; if they have, each end makes the same key from its own secret exponent and the public key of the other |
| `DiffieHellman.SharedFromSecret` | src/cipher.c:690-699 | the key is expanded from the shared secret modulo 2^128 |
| `DiffieHellman.MakeSharedKey` | src/cipher.c:672-704 | for a secret of at least sixteen bytes the routines compute that key |
| `ChannelSets.FirstFreeUnique` | src/channel.c:194-198 | there is only one first unused id |
| `ChannelSets.ChannelSet.NewOutgoing` | src/channel.c:187-204 | the loop stops, when any id is unused, at the first unused one after the counter, which then is in use |
| `ChannelSets.OutgoingExact` | src/channel.c:194-198 | for every counter: the new id is an outgoing id, and not that of the master channel, exactly when one above the counter in that range is unused, or all above the counter and the master id are taken and one in the range is not |
| `Channels.Channel.Create` | src/channel.c:347-394 | the creator waits, and the message offers its supported ciphers in order with the policy; nothing changes when the channel is not new |
| `Channels.Channel.PutSupported` | src/channel.c:154-160 | a supported instance replaces one of the same id; without a table nothing happens |
| `Channels.Channel.Select` | src/channel.c:925-966 | the instance is kept, the table of supported ones is gone, and the policy is that of the cipher, or none; a second selection changes nothing |
| `Channels.Channel.OpenUp` | src/channel.c:397-401 | the queues are flushed first to the service and then to the session, in order, each message once |
| `Channels.Channel.FlushIncoming` | src/channel.c:680-688 | waiting messages are decrypted and handed on in the order in which they came |
| `Channels.Channel.FlushOutgoing` | src/channel.c:690-698 | waiting messages are sent in the order in which they were queued |
| `Channels.Channel.SendEncrypted` | src/channel.c:576-632 | the payload goes out, encrypted when asked and when there is a cipher, now or when the channel opens, and the chaining value moves on |
| `ChannelState.SendMarks` | src/channel.c:584-632 | what is sent or queued is marked as encrypted exactly when it was asked for and there is a cipher, and stands for the payload byte by byte |
| `ChannelState.FirstBlock` | src/cipher.c:226-235 | the first block that a new instance encrypts is mixed with 0123456789abcdef |
| `Channels.Channel.Recv` | src/channel.c:655-709 | a payload reaches the service decrypted, or waits until the channel opens |
| `Channels.Channel.Accept` | src/channel.c:404-490 | a selected cipher, or the one that the offered policy chooses, is accepted in the message, and the channel opens |
| `Channels.Channel.AutoSelect` | src/channel.c:427-471 | the choice by policy: RC2/40, RC2/128, whatever is supported, or none |
| `ChannelState.AcceptChooses` | src/channel.c:423-481 | what the acceptor answers when it has selected nothing: for each offered policy which cipher is taken, exactly when there is one, and the mode and the item of the message |
| `ChannelState.Refusals` | src/channel.c:748-830 | an offer or an acceptance that cannot be taken closes the channel, and with which reason |
| `Channels.Channel.RecvCreate` | src/channel.c:737-789 | the acceptor keeps those offered ciphers that its session knows, keyed for the offer |
| `Channels.Channel.RecvAccept` | src/channel.c:792-854 | the creator takes the accepted cipher, keyed for the acceptance, and opens; or it closes the channel when it cannot |
| `Channels.Channel.OfferedInstance` | src/cipher.c:672-704 | an offered instance is keyed as the state model says |
| `Channels.Channel.AcceptedInstance` | src/cipher.c:576-591 | an accepted instance is keyed as the state model says |
| `ChannelPair.SharedAgrees` | src/cipher.c:672-731 | both ends of a channel derive the same RC2/128 key whenever the secret has sixteen bytes, which it has for both or neither |
| `ChannelPair.CarriesMore` | src/channel.c:605-625 | one more payload, sealed or plain, continues what is on its way |
| `ChannelPair.CarriesFirst` | src/channel.c:655-674 | the receiver opens the first payload on its way and keeps in step |
| `ChannelPair.FlowSend` | src/channel.c:605-625 | sending adds one payload to those on their way, whatever the state |
| `ChannelPair.FlowReceive` | src/channel.c:655-674 | receiving takes the oldest one, unchanged |
| `ChannelPair.BeforeDeliver` | src/channel.c:737-789 | the offer leaves the acceptor with ciphers known to both |
| `ChannelPair.OfferEffect` | src/channel.c:737-789 | the offer leaves a fresh acceptor with those offered ciphers that its session knows, keyed for the offer |
| `ChannelPair.AcceptanceAgrees` | src/channel.c:792-854 | the creator ends up with the cipher of the acceptor, with matching keys |
| `ChannelPair.StepInv` | src/channel.c:347-854 | every step of either end and every delivery keeps the invariant of the pair |
| `ChannelPair.RunInv` | src/channel.c:347-854 | so it holds in every state of every run |
| `ChannelPair.Delivery` | src/channel.c:347-854 | in every state of every run each service has been given, unchanged and in order, a prefix of what was sent to it; once the creator is open, so is the acceptor, both hold the same cipher, which the creator offered and the acceptor supports, or none, with matching keys and the same policy |
| `ChannelPair.Completeness` | src/channel.c:655-709 | when both are open and nothing is on its way, everything sent has been given |
| `ChannelPair.NothingLost` | src/channel.c:655-709 | from every state that a run reaches with the creator open, deliveries alone lead to a state in which each service has been given all that was sent to it |
| `ChannelPair.Encrypts` | src/channel.c:347-854 | in every run in which the acceptor does not ask for no cipher, an open channel has a cipher exactly when the creator offered one that the acceptor knows |
| `ChannelPair.AgreedKeys` | src/cipher.c:505-731 | in every run the keys of an open channel are, for RC2/40, those of the first five bytes of the two login ids, and for RC2/128 one from the shared secret modulo 2^128 |
| `SessionRecv.DecodeSplit` | src/session.c:692-873 | decoding may be interrupted after any byte and taken up again |
| `SessionRecv.DecodeFrame` | src/session.c:700-740 | a frame is the number spelled by four big-endian bytes, the first below 0x80, and that many bytes |
| `SessionRecv.Session.RecvCont` | src/session.c:692-757 | a chunk completes as much of the buffered length or message as it can, and less of the chunk is left |
| `SessionRecv.Session.RecvEmpty` | src/session.c:761-809 | without a buffer, a whole message is handed on and a part is buffered; less of the chunk is left |
| `SessionRecv.Session.RecvSome` | src/session.c:812-856 | every call takes at least one byte and hands on what the decoder finds in those taken |
| `SessionRecv.Session.Recv` | src/session.c:862-873 | a call hands on exactly what the one-shot decoder finds in the pending bytes and the chunk, and keeps the rest; one frame, by its big-endian length, is handed on when it is whole and kept otherwise |
| `SessionRecv.Session.PendingIsRest` | src/session.c:692-808 | what is buffered is never a whole message |
| `SessionRecv.ChunkIndependence` | src/session.c:862-873 | the messages handed on do not depend on how the stream is cut into calls |
| `SessionRecv.SentIsReceived` | src/session.c:876-921 | payloads of 1 to 2^31 - 1 bytes, with keep-alives between them, come back as they were, and nothing is left |
| `SessionRecv.TooLong` | src/session.c:840-845 | the bound is exact: a payload of 1 to 2^32 - 1 bytes comes back exactly when it has less than 2^31 |
| `Bytes.GetPutU16` | src/common.c:248-264 | a 16-bit number is read back from its two bytes |
| `Bytes.GetPutU32` | src/common.c:282-298 | a 32-bit number is read back from its four bytes |
| `Bytes.U16BigEndian` | src/common.c:31-38 | the two bytes written for a number spell it, the higher one first |
| `Bytes.U32BigEndian` | src/common.c:41-52 | the four bytes written for a number spell it, the highest one first |
| `Bytes.GetU16BigEndian` | src/common.c:31-38 | the number read is the one that two bytes spell |
| `Bytes.GetU32BigEndian` | src/common.c:41-52 | the number read is the one that four bytes spell |
| `Buffers.PutBuffer.EnsureBuffer` | src/common.c:82-108 | the doubling loop ends with room for what is needed, and what was written is kept |
| `Buffers.PutBuffer.Guint16` | src/common.c:248-254 | appends the representation of the number |
| `Buffers.PutBuffer.Guint32` | src/common.c:282-288 | appends the representation of the number |
| `Buffers.PutBuffer.Gboolean` | src/common.c:316-323 | appends one byte, 1 for everything but zero |
| `Buffers.PutBuffer.String` | src/common.c:353-368 | appends a 16-bit length and the text |
| `Buffers.PutBuffer.Opaque` | src/common.c:393-415 | appends a 32-bit length and the bytes |
| `Buffers.PutBuffer.Finalize` | src/common.c:147-155 | the result is the representation of everything that was put, in order |
| `Buffers.GetBuffer.Guint16` | src/common.c:257-265 | the next number when it is whole; otherwise the error is set, nothing is consumed, and every later read fails too |
| `Buffers.GetBuffer.Guint32` | src/common.c:291-299 | the next number when it is whole; otherwise the error is set, nothing is consumed, and every later read fails too |
| `Buffers.GetBuffer.Gboolean` | src/common.c:326-335 | 0 or 1, whatever the byte was |
| `Buffers.GetBuffer.String` | src/common.c:371-390 | the string that was put, an empty one as NULL, and the buffer stands behind it |
| `Buffers.GetBuffer.Opaque` | src/common.c:418-438 | the bytes that were put, and the buffer stands behind them |
| `Buffers.StringExact` | src/common.c:353-390 | a string of any length survives exactly when its length fits in 16 bits |
| `Buffers.OpaqueInline` | src/common.c:393-415 | an opaque made of fields is its length followed by those fields |
| `Structures.GetLogin` | src/common.c:493-511 | the login that was put comes back, the optional part only behind a full flag |
| `Structures.GetUser` | src/common.c:564-576 | the user item comes back |
| `Structures.GetPrivacy` | src/common.c:617-631 | the privacy list comes back with all its users in order |
| `Structures.GetStatus` | src/common.c:682-702 | the status comes back with its time zero |
| `Structures.GetId` | src/common.c:736-744 | the id block comes back |
| `Structures.GetItem` | src/common.c:799-807 | the encryption item comes back |
| `Messages.PutOffer` | src/message.c:269-296 | the mode, and with any items a length and a block of them |
| `Messages.GetOffer` | src/message.c:323-346 | the offer comes back; without items extra and flag are dropped |
| `Messages.PutAcceptance` | src/message.c:389-408 | the mode, and with an item a length and a block with it |
| `Messages.GetAcceptance` | src/message.c:431-449 | the acceptance comes back; without an item extra and flag are dropped |
| `Messages.GetHandshake` | src/message.c:90-105 | the handshake comes back; the channel is that of the head |
| `Messages.GetHandshakeAck` | src/message.c:118-134 | the acknowledgement comes back, the newer fields only for the versions that have them |
| `Messages.GetLoginMsg` | src/message.c:171-178 | the login message comes back |
| `Messages.GetCreate` | src/message.c:349-368 | the channel creation comes back, the creator only behind its flag |
| `Messages.GetAccept` | src/message.c:452-467 | the channel acceptance comes back, the acceptor only behind its flag |
| `Messages.GetAnnounce` | src/message.c:617-642 | the announcement comes back with its recipients reversed |
| `Messages.Put` | src/message.c:795-820 | what is written is the head and the fields of the type, for each of the 13 types that can be written |
| `Messages.Get` | src/message.c:735-783 | a buffer that starts with a written message gives the message in its normal form, and no error |
| `MessageForms.RoundTrip` | src/message.c:735-820 | for every message whose lengths fit, parsing undoes serialising up to the normal form: the one canonical message that says the same |
| `MessageForms.NormSame` | src/message.c:735-820 | for each type of message, what comes back says the same field by field, and is canonical: no empty strings, flags of 0 or 1, absent parts zero |
| `MessageForms.CanonicalUnique` | src/message.c:735-820 | there is only one canonical message that says the same |
| `MessageForms.NormExact` | src/message.c:735-820 | a message comes back as it was exactly when it is canonical and reads the same with its recipients reversed |
| `MessageForms.FlagBytes` | src/common.c:316-323 | a flag is one byte, 0 or 1 |
| `MessageForms.TextBytes` | src/common.c:353-368 | a string is its length in two big-endian bytes, and its characters |
| `MessageForms.DataBytes` | src/common.c:393-415 | an opaque is its length in four big-endian bytes, and its bytes |
| `MessageForms.LoginWritten` | src/common.c:474-490 | the fields of a login, the optional part only behind a full flag |
| `MessageForms.ItemsWritten` | src/common.c:787-796 | the fields of a list of encryption items, in order |
| `MessageForms.UsersWritten` | src/common.c:551-614 | the users of a privacy list, from the last to the first |
| `MessageForms.OfferWritten` | src/message.c:269-296 | the block of an offer is an opaque of its own, and missing without items |
| `MessageForms.AcceptanceWritten` | src/message.c:389-408 | the block of an acceptance is an opaque of its own, and missing without an item |
| `MessageForms.HandshakeWritten` | src/message.c:74-87 | type number and fields of a handshake, the newer ones only for the versions that have them |
| `MessageForms.HandshakeAckWritten` | src/message.c:137-150 | type number and fields of its acknowledgement |
| `MessageForms.LoginsWritten` | src/message.c:159-257 | type numbers and fields of the login messages |
| `MessageForms.CreateWritten` | src/message.c:299-320 | type number and fields of a channel creation |
| `MessageForms.AcceptWritten` | src/message.c:411-428 | type number and fields of a channel acceptance |
| `MessageForms.ChannelsWritten` | src/message.c:484-517 | type numbers and fields of a payload and of a channel that is closed |
| `MessageForms.ServicesWritten` | src/message.c:535-586 | type numbers and fields of status, privacy list and service messages |
| `MessageForms.AnnounceWritten` | src/message.c:645-672 | type number and fields of an announcement, with its text in an opaque |
| `MessageForms.SendOnWire` | src/message.c:484-489 | all the bytes of a channel payload: type 4, options, channel, payload type, length, payload |
| `MessageStream.Send` | src/session.c:876-913 | what is written to the socket is the length of the message, in four big-endian bytes, and the message |
| `MessageStream.StreamDecoded` | src/session.c:635-655 | the one-shot decoder finds the encodings of the messages, in order, in what was written |
| `MessageStream.Exchange` | src/session.c:635-913 | whatever one session sends, with keep-alives between the messages and however the bytes are cut into chunks, the other parses the same messages in the same order: each says the same as the one sent, and is canonical |
| `Aware.Union` | src/srvc_aware.c:204-248 | the table of the service is the union of the tables of its lists |
| `Aware.SettlesMore` | src/srvc_aware.c:162-201 | replaying queued messages after adding everything leads to the present table |
| `Aware.IndexAdd` | src/srvc_aware.c:429-460 | joining a membership keeps the two-way index, with every list at most once in a membership |
| `Aware.IndexRemove` | src/srvc_aware.c:1196-1242 | leaving one keeps it |
| `Aware.AwareService.ListAdd` | src/srvc_aware.c:429-460 | an id with a user enters the table of the list, and the membership once; true exactly for a new one |
| `Aware.AwareService.AddAware` | src/srvc_aware.c:1161-1193 | exactly the ids with a user, neither NULL nor empty, are added, the index and the mirror are kept, and one message names exactly the new ones |
| `Aware.AwareService.RemoveAware` | src/srvc_aware.c:1196-1231 | the ids leave the list, entries that nobody wants go, and one message names exactly those |
| `Aware.AwareService.RemoveUnused` | src/srvc_aware.c:222-248 | exactly the entries without members go, and the server is told |
| `Aware.AwareService.FreeList` | src/srvc_aware.c:968-992 | the list goes with all its memberships, and the server is told of the entries that nobody wants any more |
| `Aware.AwareService.RecvAccept` | src/srvc_aware.c:314-338 | all entries are added again, then the waiting messages follow; after that the server knows the present table |
| `Aware.AwareService.Start` | src/srvc_aware.c:699-711 | starting waits for the channel, or stays stopped |
| `Aware.AwareService.Watching` | src/srvc_aware.c:314-338 | once started, the messages in wire order make the server watch exactly the ids that some list wants |
| `BuddyText.UserExact` | src/st_list.c:377-401 | a user survives its line exactly when it is clean: no semicolon, no white space but blanks, no :: in the id, no comma in an alias that follows a name |
| `BuddyText.UserWritten` | src/st_list.c:377-401 | the user line character by character, with the type as 1, 2 or 9 |
| `BuddyText.UserRead` | src/st_list.c:550-595 | what is read from a user line: the type that the character before the colons stands for, and the fields with semicolons as spaces |
| `BuddyText.UserBare` | src/st_list.c:550-595 | without a type the user is a normal one, and without a comma there is no alias |
| `BuddyText.WordEnds` | src/st_list.c:561-562 | the characters that end a word |
| `BuddyText.GetUserPlain` | src/st_list.c:550-595 | whatever the line, a user that is read has fields that can be written and read again, but perhaps an id that starts with :: |
| `BuddyText.GroupExact` | src/st_list.c:423-444 | a group survives its line exactly when name and alias are plain and the alias that is written is not empty |
| `BuddyText.GroupWritten` | src/st_list.c:423-445 | the group line character by character, with the type as 2, 3 or 9, and O or C |
| `BuddyText.GroupRead` | src/st_list.c:510-547 | what is read from a group line: the type that the last character of the name stands for, and open exactly for O |
| `BuddyText.GroupBare` | src/st_list.c:510-547 | a group without a state is open |
| `BuddyText.EmptyAliasLost` | src/st_list.c:423-444 | an empty alias comes back as the word behind it |
| `SametimeLists.VersionSurvives` | src/st_list.c:495-507 | the three version numbers come back |
| `SametimeLists.VersionWritten` | src/st_list.c:448-463 | the version line |
| `SametimeLists.DecimalDigits` | src/st_list.c:448-463 | numbers are written with decimal digits, the highest first |
| `SametimeLists.ReadJoined` | src/st_list.c:599-616 | lines that contain no line ends are fetched one by one as they were |
| `SametimeLists.BlankSkipped` | src/st_list.c:603-605 | the characters that are skipped before a line |
| `SametimeLists.LineEnds` | src/st_list.c:607-612 | the characters that end a line |
| `SametimeLists.VersionStored` | src/st_list.c:448-463 | the stored text of an empty list is the version line with its line end |
| `SametimeLists.GroupStored` | src/st_list.c:423-463 | one more group adds its line and line end |
| `SametimeLists.UserStored` | src/st_list.c:377-463 | one more user of the last group adds its line and line end |
| `SametimeLists.LoadStored` | src/st_list.c:619-643 | loading a stored list applies its lines one by one: the groups in order, each with its users in order |
| `SametimeLists.EmptyLoaded` | src/st_list.c:619-643 | an empty text leaves a new list, with version 3.1.3 |
| `SametimeLists.RoundTripExact` | src/st_list.c:448-655 | a list comes back from its stored form, up to the normal form, exactly when all its groups and users are clean |
| `SametimeLists.StoreAgain` | src/st_list.c:448-463 | the normal form of any list is stored as the same text, so a stored clean list that is loaded is stored alike |
| `SametimeLists.StrReplace` | src/st_list.c:352-355 | every occurrence is replaced, in place |
| `SametimeLists.UserPut` | src/st_list.c:377-401 | appends the line of the user |
| `SametimeLists.GroupPut` | src/st_list.c:423-444 | appends the line of the group and those of its users |
| `SametimeLists.ReadUser` | src/st_list.c:550-595 | the user that the line says, type behind the id and alias behind the last comma |
| `SametimeLists.ReadGroupLine` | src/st_list.c:510-547 | the group that the line says |
| `SametimeLists.FetchLine` | src/st_list.c:599-616 | the next line without leading blanks, and the text behind its end |
| `SametimeLists.SametimeList.Store` | src/st_list.c:448-475 | the stored text of the fields of the list |
| `SametimeLists.SametimeList.Line` | src/st_list.c:625-642 | one line changes the fields as the specification says |
| `SametimeLists.SametimeList.Get` | src/st_list.c:619-643 | all lines of the text are applied in order |
| `SametimeLists.StoreAndLoad` | src/st_list.c:448-655 | storing a list and loading the text into a new one gives its normal form exactly when the list is clean |

## Left out

- MpNumTheory.Sqrt: that the loop ends is a hypothesis, proved by `SqrtUncut` wherever the exact iterates stay uncut and by `SqrtCutDown` for a = 2^65535. Whether it ends after another iterate was cut down is not characterised; `SqrtResult` says what comes out if it does.
- MpXgcd.Xgcd: requires a other than zero, because for a = 0 the halving loop of the code does not end, as `MpXgcd.HalvingEnds` shows.
- MpDiv.MulDigit: requires room for a carry that the test of the code does not see; the callers modelled here have it.
- MpSigned.Add: objects are the same or share no digits, as `Apart` says; the C code has no other kind either.
- Cbc.DecryptExpanded: requires a nonempty ciphertext of whole blocks; the code reads outside its buffers otherwise. `Cbc.Open` gives such data, or data with impossible padding, an arbitrary meaning.
- Cbc.EncryptExpanded: requires less than 2^31 bytes, as its counters are ints.
- DiffieHellman.SharedKey: says nothing of the key when the secret has fewer than 16 bytes; the code then reads before its buffer. `DiffieHellman.MakeSharedKey` and the channel methods that call it require a longer one, and its specification leaves the key unknown otherwise.
- Channels.Channel.RecvAccept: the service is told between two changes of state; here it neither sends nor closes the channel at that moment, so re-entrant handlers are not modelled.
- Channels.Channel.Accept: user ids have at least the five bytes that an RC2/40 key is made of; for shorter ones the code reads beyond the string.
- ChannelPair.Delivery: the payload type is the 16 bits that fit in the message, writes succeed, the relay is FIFO and fills in the logins, and neither end closes the channel. Ciphers are those of the library; when both ends know RC2/128, their shared secret has at least 16 bytes.
- Channels.Session.SendMessage: the message is a value; its bytes are the subject of `MessageStream`. A failing write is an input, and the echo of a user status to its own handler is left out.
- SessionRecv.Session.Recv: `gsize` is taken to be wide enough for a length plus four; allocation succeeds.
- Messages.Get: truncated and malformed buffers are described only by the sticky error of the `Buffers` methods; the types that are only received (LOGIN_ACK, ADMIN) are recognised but not parsed.
- Aware.AwareService.AddAware: an id whose user is NULL or empty is not added; presence data, attributes, groups and snapshots of an entry are left out, lists are told apart by number.
- Aware.AwareService.RecvAccept: requires a service that is starting; the code destroys the channel otherwise, but a channel is accepted only once and a stopped service has none.
- Aware.AwareService.FreeList: the reuse of a list after mwAwareList_removeAllAware, and the attribute watch messages, are left out.
- SametimeLists.SametimeList.Get: a user line before any group line is dropped, or goes to the last group of a list that has some; the code follows a null pointer. Version numbers with signs, blanks or overflow are not modelled.
- BuddyText.UserExact: user ids are not NULL; an id that starts with `::` is left as it is, where the code writes before its buffer. The 16-bit length of mwSametimeList_put is not modelled.
- Freeing, allocation failure, logging, statistics, sockets and the random generator (its bytes are inputs).
- General powers, single-digit division, radix conversion, random integers and the Karatsuba code of the integer library.
- Services other than awareness, the sample programs, and the property tables.
- The contents of a channel's options, additional data and protocol numbers while it is negotiated; they are covered as message fields only.
