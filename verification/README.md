# Models of the router firmware's arithmetic, symmetric cryptography and 802.1X authenticator

This project models three parts of the firmware and proves what they compute, for every input and every run.

**Big numbers and Diffie-Hellman** (`bn.c`, `bn_lcl.h`, `dh.c`). Words live in one address space, an array; a word
pointer is an index into it, and every kernel says which words it may write and which operands its result may overlay.
`Val` gives the number a word list stands for, and each routine is proved to compute integer arithmetic on it: carry
macros, word loops, schoolbook, column-wise and Karatsuba products, normalised long division, both modular inverses,
Montgomery reduction, both exponentiations and the key exchange. A number object is a sign flag and a word list that
an operation may replace; aliased arguments are allowed wherever the C code allows them. Temporaries from the context
pool start with whatever was left in them.

The branch modelled is the one `vendor/include/bcmcrypto/bn.h` selects: 32-bit words, column-wise kernels and
Karatsuba on, no assembler, no double-width integer type. With that header's word size an odd modulus of up to 2048
bits takes the binary inversion branch; the bound is a parameter of the model.

**Symmetric transforms** (`rijndael-alg-fst.c`, `aeskeywrap.c`, `aes.c`, `md32_common.h`, `sha256.c`, `passhash.c`,
`prf.c`, and the streaming part of `sha1.c`). AES is defined from the table formula in the source, with the S-box and
its inverse as parameters; key wrap and CCM are over any block cipher; the hash collector, HMAC, the password hash and the
pseudo-random functions are over any block function. Each fast, resumable or table-driven form is proved equal to a
simple one, and the simple ones are pinned to their standards by field products, roots of primes, single bits, positions
of bytes and published examples (`AesStandard`, `Sha256Standard`, `CcmStandard`, `KeyWrapStandard`, `HmacStandard`).

**The 802.1X authenticator** (`nas.c`, `nas_radius.c`). The station pool is an array of slots threaded through hash
chains; a pointer into the pool is a slot number. Each event is a function on a station's fields, carried out in place
by the methods of class `Pae`, and a list of what it sends; properties over whole runs are lemmas about those functions,
and `Play` shows that a run of the pool is one such run in every slot. `PaeLaws` and `PoolLaws` say when exactly each
transition happens and what is left of the station. The clock, the random authenticator, the radio,
the driver, the WPA code's verdict and the check of a reply's HMAC are inputs.

## Where the code and its documentation differ

The model follows the code; the exact conditions are lemmas.

- The comments above `bn_mul_recursive` and `bn_sqr_recursive` ask for 2*n2 words of scratch. The kernels write
  4*n2 - 32 words from n2 = 16 on, so the comments are right exactly up to 16 words (`ScratchPromise`); `BN_mul` and
  `BN_sqr` supply 4*n2.
- `BN_div` with the quotient object in the dividend's place gives the remainder the quotient's sign, unless the dividend
  is smaller than the divisor; the promise fails exactly for a negative divisor not above the dividend in magnitude that
  does not divide it (`AliasedRemainder`, `SixByMinusFive`).
- `BN_nnmod` of a zero with its sign flag set returns the modulus (`NNMod`); the callers modelled here tolerate it. With
  the modulus as result object it is right exactly for a number that is not negative or divisible (`AliasedModulus`).
- `BN_add_word` and `BN_sub_word` of 0 to zero, and nothing else, leave a number that is not normalised (`PlusWord`).
- `BN_mod_exp_mont` and `BN_mod_exp_mont_word` return 1 for exponent 0 and modulus 1 (`ExpResultExact`).
- `BN_sqr` of zero, and of nothing else, leaves the result's sign flag as it was (`Sqr`), so a power that is zero may carry
  the flag; contracts speak of values.
- `BN_from_montgomery` copies the sign of its operand, but loses it exactly if the last subtraction is made, that is if
  T + N*u is not below N*R, u being the multiplier that clears T (`FromMontgomery`, `SubtractsExactly`, `SignLost`).
- `BN_mod_inverse` with the modulus as result object leaves 0 exactly if the coefficient is negative and the modulus is not
  1 or -1 (`Inverse`, `CoefficientSign`, `FiveModuloEleven`).
- `aes_wrap` takes the step counter into one byte, which is the 64-bit counter of RFC 3394 up to 42 blocks of input,
  while 48 are accepted (`StandardUpTo42`).
- `aes_ccm_mac` accepts messages whose length does not fit the two-byte length field (`LengthField`), and with the longest
  of them the MAC and the last block are crypted with the same key stream (`StreamSeparate`).
- The session of an authenticated station in a pre-shared key mode ends without effect (`SessionEnds`).
- `PRF` and `fPRF` admit one input length more than their buffer holds (`GuardAdmitsOneMore`). `PRF` hashes the key buffer
  again for every block, so the two agree for every hash exactly for keys of up to 64 bytes or one block (`FastIsSlow`).
- `SHA1Input` reports success for the call that makes a message too long; only the next call reports it (`Input`).
- The authenticator remembers an EAP-Success before it has checked the reply that carries it, so the one an Access-Accept
  relies on is signed for certain exactly if the flag was clear when that reply came (`SuccessIsSigned`,
  `LeftOverSuccess`).
- A station's identifier is an `int` and one byte in a frame, so an identity request can be answered exactly while the
  identifier is below 256 (`EchoTakenOn`); a silent station passes that bound (`IdGrows`).
- A relayed EAP message that comes in more than fifteen attributes is cut short (`RelayedWhole`).

## Model

| member | source | states |
|---|---|---|
| `Words.NormalUnique` | vendor/include/bcmcrypto/bn.h:490-497 | word lists without leading zero word are determined by the number they stand for |
| `Words.Trim` | vendor/include/bcmcrypto/bn.h:490-497 | bn_fix_top keeps the number, leaves no leading zero word and drops only zero words |
| `HalfWords.Mul64` | userspace/libbcmcrypto/src/bn_lcl.h:362-380 | four half-word products and two wrap tests give exactly the double-word product |
| `HalfWords.Sqr64` | userspace/libbcmcrypto/src/bn_lcl.h:382-397 | three half-word products give exactly the double-word square |
| `HalfWords.MulAdd` | userspace/libbcmcrypto/src/bn_lcl.h:399-415 | low and high word of a*w + r + c, no carry lost |
| `HalfWords.Mul` | userspace/libbcmcrypto/src/bn_lcl.h:417-429 | low and high word of a*w + c, no carry lost |
| `WordQuotient.DivNormalised` | userspace/libbcmcrypto/src/bn.c:555-593 | both half-word trial digits and corrections give floor((h*B + l) / d) for every normalised d > h |
| `WordDivision.SameQuotient` | userspace/libbcmcrypto/src/bn.c:548-552 | shifting dividend and divisor alike keeps the quotient |
| `WordDivision.DivWords` | userspace/libbcmcrypto/src/bn.c:535-593 | floor(((h mod d)*B + l) / d) for every divisor, whatever its size, and every h below 2d; all ones for d = 0 |
| `WordQuotient.TrialDigit` | userspace/libbcmcrypto/src/bn.c:550-575 | the corrected half-word digit is the quotient digit |
| `Kernels.MulAddWords` | userspace/libbcmcrypto/src/bn.c:444-469 | r' + c*B^n = r + a*w, nothing else written, r may be a |
| `Kernels.MulWords` | userspace/libbcmcrypto/src/bn.c:471-496 | r + c*B^n = a*w, nothing else written |
| `Kernels.SqrWords` | userspace/libbcmcrypto/src/bn.c:498-519 | every word's square at twice its position |
| `Kernels.AddWords` | userspace/libbcmcrypto/src/bn.c:635-682 | r + c*B^n = a + b with a carry of at most 1, in place over either operand |
| `Kernels.SubWords` | userspace/libbcmcrypto/src/bn.c:685-720 | r - c*B^n = a - b; passing the borrow on for equal words is right |
| `Kernels.CmpWords` | userspace/libbcmcrypto/src/bn.c:3078-3093 | the sign of a - b |
| `Kernels.TopDecides` | userspace/libbcmcrypto/src/bn.c:3084-3091 | the most significant differing word decides the order of two numbers |
| `Multiply.MulNormal` | userspace/libbcmcrypto/src/bn.c:4178-4210 | schoolbook: r = a*b for operands of any lengths, in either order |
| `Multiply.SqrNormal` | userspace/libbcmcrypto/src/bn.c:4783-4817 | r = a*a; neither the doubling nor the final addition carries |
| `Multiply.SquareFromHalves` | userspace/libbcmcrypto/src/bn.c:4787-4816 | twice the off-diagonal plus the diagonal is the square |
| `Comba.MulAddC` | userspace/libbcmcrypto/src/bn.c:795-800 | c += a*b in three words, no carry lost |
| `Comba.MulAddC2` | userspace/libbcmcrypto/src/bn.c:802-812 | c += 2*a*b in three words: the carry out of doubling and the wrap of the high word are both counted |
| `Comba.SqrAddC` | userspace/libbcmcrypto/src/bn.c:814-817 | c += a^2 in three words |
| `Comba.ColumnsProduct` | userspace/libbcmcrypto/src/bn.c:824-976 | the weighted columns of two numbers add up to their product |
| `Comba.MulComba` | userspace/libbcmcrypto/src/bn.c:824-976 | the column-wise kernels write exactly a*b for 4 and 8 words |
| `Comba.SqrComba` | userspace/libbcmcrypto/src/bn.c:978-1098 | the column-wise squares write exactly a*a: each pair counted twice, the middle once |
| `Ripple.Increment` | userspace/libbcmcrypto/src/bn.c:3415-3420 | the unbounded increment loop stops inside any number that has room for one more |
| `Ripple.AddCarry` | userspace/libbcmcrypto/src/bn.c:3721-3738 | the carry propagation adds c and never leaves the number when the sum fits |
| `Karatsuba.Differences` | userspace/libbcmcrypto/src/bn.c:3636-3669 | the nine-way switch: zero iff one difference is zero, sign flag and magnitudes of the signed middle product |
| `Karatsuba.MiddleTerm` | userspace/libbcmcrypto/src/bn.c:3705-3713 | lo + hi + signed middle is not negative, hence neither is the carry |
| `Karatsuba.KaratsubaIdentity` | userspace/libbcmcrypto/src/bn.c:3611-3612 | the identity of the header comment, and that the middle coefficient is not negative |
| `Karatsuba.MulRecursive` | userspace/libbcmcrypto/src/bn.c:3614-3739 | for every power of two n2 r[0..2*n2) is exactly a*b; only r and MulScratch(n2) words of t are written, and the last sixteen of those hold the cross terms of the top words |
| `Karatsuba.SqrRecursive` | userspace/libbcmcrypto/src/bn.c:4830-4913 | for every power of two n2 r[0..2*n2) is exactly a*a; the scratch area likewise, with SqrScratch(n2) words |
| `Karatsuba.ScratchClosed` | userspace/libbcmcrypto/src/bn.c:3602-3697 | from 16 words on both kernels use 4*n2 - 32 words of scratch |
| `Karatsuba.ScratchPromise` | userspace/libbcmcrypto/src/bn.c:3602-3613 | the 2*n2 words of the comments are enough if and only if n2 is at most 16; the 4*n2 words the callers supply always are |
| `Division.PassedTestNearlyExact` | userspace/libbcmcrypto/src/bn.c:1400-1429 | a digit that passes the two-word test is at most one too large |
| `Division.FailedTestTooLarge` | userspace/libbcmcrypto/src/bn.c:1400-1429 | a digit that fails the test is too large |
| `Division.EqualLeadingWords` | userspace/libbcmcrypto/src/bn.c:1364-1365 | the unrefined digit B-1, taken when the leading words agree, is at most one too large |
| `Division.EstimateDigit` | userspace/libbcmcrypto/src/bn.c:1362-1431 | the estimate is the quotient digit or one more |
| `Division.DivStep` | userspace/libbcmcrypto/src/bn.c:1354-1451 | one add-back suffices: the window becomes the exact remainder, below the divisor, and the digit the exact quotient digit |
| `Division.DivLoop` | userspace/libbcmcrypto/src/bn.c:1318-1452 | dividend = quotient * divisor * B + rest with rest below the divisor at its place; the first digit is 0 or 1 |
| `Bits.NumBitsWord` | userspace/libbcmcrypto/src/bn.c:2477-2549 | the byte cascade and table give the bit length of a word |
| `Bits.NumBits` | userspace/libbcmcrypto/src/bn.c:2551-2564 | bit length of a number, 0 for zero |
| `Bits.BitLenUnique` | userspace/libbcmcrypto/src/bn.c:2551-2564 | the bit length is the one n with 2^(n-1) <= x < 2^n |
| `Bits.IsBitSet` | userspace/libbcmcrypto/src/bn.c:3046-3056 | bit n of the number, false beyond its words |
| `Bits.SetBitIn` | userspace/libbcmcrypto/src/bn.c:3012-3028 | sets bit n: adds 2^n unless it is set already |
| `Magnitudes.AddMagnitudes` | userspace/libbcmcrypto/src/bn.c:198-253 | the sum of the magnitudes for operands of any lengths |
| `Magnitudes.SubMagnitudes` | userspace/libbcmcrypto/src/bn.c:256-327 | the difference of the magnitudes, normalised |
| `Magnitudes.CompareMagnitudes` | userspace/libbcmcrypto/src/bn.c:2947-2967 | the order of the magnitudes |
| `Shifts.LShift` | userspace/libbcmcrypto/src/bn.c:4625-4657 | multiplies by 2^n, for every n |
| `Shifts.RShift` | userspace/libbcmcrypto/src/bn.c:4659-4701 | divides by 2^n rounding down, for every n |
| `Shifts.LShift1` | userspace/libbcmcrypto/src/bn.c:4570-4596 | doubles |
| `Shifts.RShift1` | userspace/libbcmcrypto/src/bn.c:4598-4623 | halves rounding down |
| `Shifts.MulWord` | userspace/libbcmcrypto/src/bn.c:5031-5049 | multiplies by a word |
| `Shifts.SubWord` | userspace/libbcmcrypto/src/bn.c:5014-5027 | the borrow loop: subtracts a word from a number not below it, normalised |
| `Shifts.AddToWords` | userspace/libbcmcrypto/src/bn.c:4975-4994 | adds a word; normalised unless zero is added to zero |
| `BigNums.BigNum.Copy` | userspace/libbcmcrypto/src/bn.c:2772-2804 | the copy has the same words and sign flag |
| `BigNums.BigNum.SetWord` | userspace/libbcmcrypto/src/bn.c:2868-2894 | the value is the word, the sign is plus |
| `BigNums.BigNum.UAdd` | userspace/libbcmcrypto/src/bn.c:198-253 | adds magnitudes, result object may be either operand |
| `BigNums.BigNum.USub` | userspace/libbcmcrypto/src/bn.c:256-327 | subtracts magnitudes, result object may be either operand |
| `BigNums.BigNum.UCmp` | userspace/libbcmcrypto/src/bn.c:2947-2967 | orders the magnitudes |
| `BigNums.BigNum.Add` | userspace/libbcmcrypto/src/bn.c:157-195 | the signed sum for every combination of signs and aliasing |
| `BigNums.BigNum.Sub` | userspace/libbcmcrypto/src/bn.c:329-371 | the signed difference for every combination of signs and aliasing |
| `BigNums.BigNum.ShiftLeft` | userspace/libbcmcrypto/src/bn.c:4625-4657 | keeps the sign flag, multiplies the magnitude by 2^n |
| `BigNums.BigNum.ShiftLeft1` | userspace/libbcmcrypto/src/bn.c:4570-4596 | keeps the sign flag, doubles the magnitude |
| `BigNums.BigNum.ShiftRight` | userspace/libbcmcrypto/src/bn.c:4659-4701 | divides the magnitude by 2^n rounding down; the sign stays unless the result is zero |
| `BigNums.BigNum.ShiftRight1` | userspace/libbcmcrypto/src/bn.c:4598-4623 | halves the magnitude rounding down |
| `BigNums.BigNum.TimesWord` | userspace/libbcmcrypto/src/bn.c:5031-5049 | multiplies the signed value by a word |
| `BigNums.BigNum.PlusWord` | userspace/libbcmcrypto/src/bn.c:4964-4995 | the sum with a word for either sign, with the sign flag; normalised if and only if not both are zero |
| `BigNums.BigNum.MinusWord` | userspace/libbcmcrypto/src/bn.c:4997-5029 | the difference with a word for either sign and also for numbers below it, with the sign flag; normalised if and only if not both are zero |
| `BigNums.BigNum.SetBit` | userspace/libbcmcrypto/src/bn.c:3012-3028 | sets a bit of the magnitude |
| `BigNums.BigNum.constructor` | userspace/libbcmcrypto/src/bn.c:2869-2894 | a new number is zero |
| `BigProducts.Mul` | userspace/libbcmcrypto/src/bn.c:4083-4176 | the signed product whichever kernel is chosen (comba, Karatsuba with the spare-word padding, schoolbook), result object may be an operand |
| `BigProducts.Sqr` | userspace/libbcmcrypto/src/bn.c:4705-4780 | the square, without a leading zero; the sign flag is cleared, except that the square of zero leaves it as it was |
| `BigDivision.DivideMagnitudes` | userspace/libbcmcrypto/src/bn.c:1307-1464 | normalise, divide, denormalise: quotient and remainder of the magnitudes, both without leading zeros |
| `BigDivision.Div` | userspace/libbcmcrypto/src/bn.c:1274-1469 | quotient and remainder under every allowed aliasing; fails exactly for a zero divisor and then changes nothing |
| `BigDivision.QuoRemTruncated` | userspace/libbcmcrypto/src/bn.c:1267-1273 | what is computed has num = dv*divisor + rm, abs(rm) < abs(divisor) and the signs promised in the comment |
| `BigDivision.TruncatedUnique` | userspace/libbcmcrypto/src/bn.c:1267-1273 | no other pair has |
| `BigDivision.AliasedRemainder` | userspace/libbcmcrypto/src/bn.c:1287-1463 | with dv == num the promise about rm holds if and only if the divisor is positive, the dividend smaller than it, or the division exact |
| `BigDivision.SixByMinusFive` | userspace/libbcmcrypto/src/bn.c:1336-1463 | it fails for 6 and -5 |
| `BigDivision.NNMod` | userspace/libbcmcrypto/src/bn.c:3128-3141 | the remainder in [0, abs(d)) for every m but a zero with its sign flag set, for which abs(d) comes back; with the result in the modulus' place, AliasedMod |
| `BigDivision.AliasedModulus` | userspace/libbcmcrypto/src/bn.c:3128-3141 | that is m mod abs(d) if and only if m is not negative or a multiple of d |
| `ModInverse.StripTwos` | userspace/libbcmcrypto/src/bn.c:2196-2232 | dividing out all twos keeps the congruence and the gcd, and B does not grow |
| `ModInverse.BinaryRound` | userspace/libbcmcrypto/src/bn.c:2188-2254 | one round of the binary branch keeps both congruences of the comments and the gcd, and A + B shrinks |
| `ModInverse.BinaryInverse` | userspace/libbcmcrypto/src/bn.c:2175-2254 | the binary branch terminates with the gcd and its coefficient |
| `ModInverse.DivideShort` | userspace/libbcmcrypto/src/bn.c:2267-2298 | the shortcuts for quotients 1, 2 and 3 give the same quotient and remainder as the division |
| `ModInverse.Combine` | userspace/libbcmcrypto/src/bn.c:2332-2347 | tmp = D*X + Y in each of the special cases |
| `ModInverse.EuclidStep` | userspace/libbcmcrypto/src/bn.c:2300-2330 | one step keeps the two congruences with the sign turned, and the gcd |
| `ModInverse.EuclidRound` | userspace/libbcmcrypto/src/bn.c:2258-2353 | one round of the Euclid branch on the rotating objects keeps the congruences and the gcd, and B shrinks |
| `ModInverse.EuclidInverse` | userspace/libbcmcrypto/src/bn.c:2255-2354 | the Euclid branch with rotating objects terminates with the gcd and its coefficient |
| `ModInverse.Inverse` | userspace/libbcmcrypto/src/bn.c:2138-2386 | succeeds exactly when gcd(a, n) = 1 (and n is not 0), with x in [0, abs(n)) and a*x = 1 mod abs(n), in either branch and for any signs; with the modulus as result object it is the inverse if and only if the coefficient is not negative or abs(n) = 1, and else 0; on failure the result object is unchanged |
| `ModInverse.CoefficientSign` | userspace/libbcmcrypto/src/bn.c:2188-2354 | the coefficient is not negative in the binary branch if and only if Y has not outgrown n, in the Euclid branch if and only if n is positive or the division steps are odd in number |
| `ModInverse.FiveModuloEleven` | userspace/libbcmcrypto/src/bn.c:2188-2379 | for 5 modulo 11 the coefficient is -2 |
| `ModArith.InverseImpliesCoprime` | userspace/libbcmcrypto/src/bn.c:2370-2380 | a number with an inverse is coprime to the modulus, so failing is right |
| `Montgomery.NegInverse` | userspace/libbcmcrypto/src/bn.c:3524-3556 | n0 * N = -1 mod B, including the case N mod B = 1; fails exactly for an even word |
| `Montgomery.ClearsLow` | userspace/libbcmcrypto/src/bn.c:3409 | the multiplier rp[0]*n0 makes the low word zero |
| `Montgomery.Pass` | userspace/libbcmcrypto/src/bn.c:3394-3421 | one pass adds a multiple of N that clears a low word; its carry ripple stays inside the nl+al+1 words |
| `Montgomery.Reduce` | userspace/libbcmcrypto/src/bn.c:3346-3458 | after all passes the value is below 2N and R times it is T + N*u for the u below R that clears T |
| `Montgomery.FromMontgomery` | userspace/libbcmcrypto/src/bn.c:3345-3476 | every magnitude T < N*R goes to a value below N congruent to T * R^-1; one subtraction is enough; for a negative operand the flag stays if and only if the last subtraction is not made, and the value is right if and only if it is not made or N divides T |
| `Montgomery.SubtractsExactly` | userspace/libbcmcrypto/src/bn.c:3469-3471 | the last subtraction is made if and only if T + N*u is not below N*R, u being the multiplier that clears T |
| `Montgomery.MultiplierClears` | userspace/libbcmcrypto/src/bn.c:3394-3421 | the multiplier found bit by bit is below 2^k and makes T + N*u a multiple of it |
| `Montgomery.ClearsUnique` | userspace/libbcmcrypto/src/bn.c:3394-3421 | it is the only one |
| `Montgomery.LargestOperand` | userspace/libbcmcrypto/src/bn.c:3469-3471 | for N = B - 1 and T = N*B - 1 the last subtraction is made |
| `Montgomery.SignLost` | userspace/libbcmcrypto/src/bn.c:3345-3476 | there a negative operand comes out as the wrong residue |
| `Montgomery.SignOfReduction` | userspace/libbcmcrypto/src/bn.c:3425-3471 | for a negative operand the result is right with the flag, and without it only if it is zero |
| `Montgomery.ReductionUnique` | userspace/libbcmcrypto/src/bn.c:3345-3476 | there is only one such value |
| `Montgomery.MulMontgomery` | userspace/libbcmcrypto/src/bn.c:3321-3343 | the reduction of the product of the magnitudes, a square when both operands are one object; for operands of opposite sign the flag and the value are right under the same conditions on their product |
| `Montgomery.Context.Set` | userspace/libbcmcrypto/src/bn.c:3514-3581 | succeeds exactly for odd moduli and then holds abs(N), n0, the length of R and R^2 mod N |
| `ModExp.FormsMultiply` | userspace/libbcmcrypto/src/bn.c:3321-3343 | Montgomery multiplication multiplies the numbers its operands stand for |
| `ModExp.ToMontgomery` | vendor/include/bcmcrypto/bn.h:455-456 | brings a number below R into Montgomery form |
| `ModExp.OddPowers` | userspace/libbcmcrypto/src/bn.c:1758-1768 | entry k of the table is the form of a^(2k+1) |
| `ModExp.ScanWindow` | userspace/libbcmcrypto/src/bn.c:1789-1805 | the window is the longest one of the size that ends in a set bit; its value is odd and made of exactly those exponent bits |
| `ModExp.SlidingWindow` | userspace/libbcmcrypto/src/bn.c:1770-1823 | the accumulator is the form of a to the exponent bits consumed, whatever windows are met |
| `ModExp.ModExpMont` | userspace/libbcmcrypto/src/bn.c:1705-1833 | fails exactly for even m; otherwise a^abs(p) mod abs(m) for a of either sign, with an early 1 for p = 0; rr may be any operand |
| `ModExp.ExpResultExact` | userspace/libbcmcrypto/src/bn.c:1722-1726 | that result is a^p mod m if and only if not both p = 0 and m = 1 |
| `ModExp.WindowBest` | userspace/libbcmcrypto/src/bn_lcl.h:155-184 | from 24 bits on no window of 2 to 6 bits costs less by the comment's estimate; draws occur exactly at 79, 239 and 671 bits |
| `ModExpWord.OverflowShows` | userspace/libbcmcrypto/src/bn.c:1904-1905 | dividing the wrapped product back detects every overflow and nothing else |
| `ModExpWord.FoldWord` | userspace/libbcmcrypto/src/bn.c:1842-1860 | folding the collected word into r multiplies the represented number by it |
| `ModExpWord.WordPowers` | userspace/libbcmcrypto/src/bn.c:1897-1932 | r*w is exactly a to the exponent bits consumed |
| `ModExpWord.ModExpMontWord` | userspace/libbcmcrypto/src/bn.c:1835-1953 | the same result as BN_mod_exp_mont for a one-word base; fails exactly for even m, 0 included |
| `Octets.FromBytes` | userspace/libbcmcrypto/src/bn.c:2896-2930 | the number the big-endian bytes stand for, normalised, for any leading zeros |
| `Octets.ToBytes` | userspace/libbcmcrypto/src/bn.c:2933-2945 | writes exactly the bytes of the magnitude without a leading zero and nothing else |
| `Octets.BytesRoundTrip` | userspace/libbcmcrypto/src/bn.c:2896-2945 | bn2bin after bin2bn gives the bytes back without their leading zeros |
| `Octets.CanonicalUnique` | userspace/libbcmcrypto/src/bn.c:2933-2945 | equal numbers have identical bytes |
| `DiffieHellman.DhModExp` | userspace/libbcmcrypto/src/dh.c:606-617 | the word path and the bignum path compute the same power; a one-word base loses its sign |
| `DiffieHellman.Party.constructor` | userspace/libbcmcrypto/src/dh.c:594-603 | modulus and generator from the caller's bytes and word, no keys yet |
| `DiffieHellman.Party.GenerateKey` | userspace/libbcmcrypto/src/dh.c:489-544 | makes the pair once, for odd p only, with public = g^private mod p and its bytes in the buffer; later calls return the same key |
| `DiffieHellman.Party.ComputeKey` | userspace/libbcmcrypto/src/dh.c:547-592 | the bytes of peer^private mod p; -1 exactly without private key or for even p |
| `DiffieHellman.SecretsAgree` | userspace/libbcmcrypto/src/dh.c:547-592 | (g^y)^x and (g^x)^y reduce to the same number, for m > 1 and all exponents |
| `DiffieHellman.Exchange` | userspace/libbcmcrypto/src/dh.c:489-617 | two parties with the same odd p > 1 and base end with byte-identical keys, whatever they draw and whichever path each takes |
| `Galois.MixInverse` | userspace/libbcmcrypto/src/rijndael-alg-fst.c:39-49 | the products of the columns 02 01 01 03 and 0e 09 0d 0b are 1 and 0 in GF(2^8), for every byte |
| `Aes.MixThenInverse` | userspace/libbcmcrypto/src/rijndael-alg-fst.c:39-49 | InvMixColumns undoes MixColumns |
| `Aes.InvMixLinear` | userspace/libbcmcrypto/src/rijndael-alg-fst.c:856-876 | InvMixColumns distributes over the exclusive or with a round key |
| `Aes.TablesInvMix` | userspace/libbcmcrypto/src/rijndael-alg-fst.c:856-876 | Td[Te4[.] & 0xff] applies InvMixColumns to a round-key word |
| `Aes.TableRounds` | userspace/libbcmcrypto/src/rijndael-alg-fst.c:1023-1068 | a round of table look-ups is SubBytes, ShiftRows, MixColumns, AddRoundKey, and the inverse one likewise |
| `Aes.KeySetupEnc` | userspace/libbcmcrypto/src/rijndael-alg-fst.c:749-831 | the three unrolled schedules produce the key expansion of section 5.2 of FIPS 197 word for word; 0 for other sizes |
| `Aes.ReverseKeys` | userspace/libbcmcrypto/src/rijndael-alg-fst.c:844-850 | the in-place swaps reverse the round keys |
| `Aes.KeySetupDec` | userspace/libbcmcrypto/src/rijndael-alg-fst.c:837-877 | the reversed schedule with InvMixColumns on the inner round keys; 0 for other sizes |
| `Aes.Encrypt` | userspace/libbcmcrypto/src/rijndael-alg-fst.c:879-1113 | the two-round table loop is the cipher of section 5.1 of FIPS 197 |
| `Aes.Decrypt` | userspace/libbcmcrypto/src/rijndael-alg-fst.c:1115-1349 | the two-round table loop is the equivalent inverse cipher |
| `Aes.InverseRounds` | userspace/libbcmcrypto/src/rijndael-alg-fst.c:1115-1349 | after n inverse rounds the state is that of the encryption n rounds before its end |
| `Aes.DecryptEncrypt` | userspace/libbcmcrypto/src/rijndael-alg-fst.c:837-1349 | decryption under the inverted schedule inverts encryption for any round keys |
| `Aes.RoundTrip` | userspace/libbcmcrypto/src/rijndael-alg-fst.c:749-1349 | set-up, encrypt, set-up, decrypt gives every block back for every key of the three sizes |
| `AesStandard.ProductUnique` | userspace/libbcmcrypto/src/rijndael-alg-fst.c:39-49 | a product in the field, defined by carry-less multiplication and a multiple of x^8+x^4+x^3+x+1, is determined |
| `AesStandard.By2Reduces` | userspace/libbcmcrypto/src/rijndael-alg-fst.c:39-49 | doubling shifts and takes off 11b exactly when the degree reaches 8 |
| `AesStandard.MultiplesAreProducts` | userspace/libbcmcrypto/src/rijndael-alg-fst.c:39-49 | the six multiples in the table formula are the products by 02, 03, 09, 0b, 0d and 0e |
| `AesStandard.InputLayout` | userspace/libbcmcrypto/src/rijndael-alg-fst.c:892-895 | byte r + 4c of the input is row r, column c |
| `AesStandard.ShiftedRows` | userspace/libbcmcrypto/src/rijndael-alg-fst.c:902-917 | row r moves r columns to the left, and back |
| `AesStandard.AddedKey` | userspace/libbcmcrypto/src/rijndael-alg-fst.c:892-895 | adding a round key is the exclusive or of each byte, and of nothing else |
| `AesStandard.MixedRow` | userspace/libbcmcrypto/src/rijndael-alg-fst.c:39-49 | each byte of a mixed column is 02 times itself, 03 times the next and the two others, by the products of the field |
| `AesStandard.InvMixedRow` | userspace/libbcmcrypto/src/rijndael-alg-fst.c:39-49 | the inverse with 0e, 0b, 0d and 09 |
| `AesStandard.RoundConstant` | userspace/libbcmcrypto/src/rijndael-alg-fst.c:713-717 | the constants of the key expansion are the powers of x, by the products of the field |
| `AesStandard.RoundsForKey` | userspace/libbcmcrypto/src/rijndael-alg-fst.c:749-831 | 10, 12 and 14 rounds for the three key sizes |
| `AesStandard.KeyExample128` | userspace/libbcmcrypto/src/rijndael-alg-fst.c:760-775 | the first new word of the 128-bit example of FIPS 197, appendix A.1, with the S-box of figure 7 |
| `AesStandard.KeyExample192` | userspace/libbcmcrypto/src/rijndael-alg-fst.c:779-797 | that of the 192-bit example, appendix A.2 |
| `AesStandard.KeyExample256` | userspace/libbcmcrypto/src/rijndael-alg-fst.c:801-829 | those of the 256-bit example, appendix A.3, the substituted one included |
| `AesStandard.CipherExample` | userspace/libbcmcrypto/src/rijndael-alg-fst.c:879-1113 | the whole cipher on the example of FIPS 197, appendix C.1 |
| `KeyWrap.StepInverse` | userspace/libbcmcrypto/src/aeskeywrap.c:117-132 | one wrap step and one unwrap step cancel in both orders |
| `KeyWrap.Rewind` | userspace/libbcmcrypto/src/aeskeywrap.c:114-213 | the six-by-n loops cancel in both orders |
| `KeyWrap.UnwrapWrap` | userspace/libbcmcrypto/src/aeskeywrap.c:73-222 | unwrapping a wrapped key succeeds and returns it, for every length that is a multiple of 8 up to the limit |
| `KeyWrap.WrapUnwrap` | userspace/libbcmcrypto/src/aeskeywrap.c:73-222 | a successful unwrap means that wrapping its output gives back its input |
| `KeyWrap.AesWrap` | userspace/libbcmcrypto/src/aeskeywrap.c:73-141 | the array loops compute the wrapping; every error leaves the output alone |
| `KeyWrap.AesUnwrap` | userspace/libbcmcrypto/src/aeskeywrap.c:148-222 | the array loops compute the unwrapping; a wrong integrity value leaves the output alone |
| `KeyWrap.StandardUpTo42` | userspace/libbcmcrypto/src/aeskeywrap.c:127-130 | the counter taken into one byte gives the wrapping of RFC 3394 for every cipher if and only if the key has at most 42 blocks |
| `KeyWrapStandard.ShiftingForm` | userspace/libbcmcrypto/src/aeskeywrap.c:114-132 | the shifting form of section 2.2.1 of RFC 3394, with a 64-bit counter, is the indexed form with the blocks turned by the steps of the pass |
| `KeyWrapStandard.WrapIsStandard` | userspace/libbcmcrypto/src/aeskeywrap.c:73-141 | from the start value A6..A6 the output is that of the shifting form after 6n steps, for every cipher if and only if the key has at most 42 blocks |
| `KeyWrapStandard.ExampleWrap` | userspace/libbcmcrypto/src/aeskeywrap.c:73-141 | the example of section 4.1 of RFC 3394, for any cipher with the example's twelve values |
| `Ccm.CounterNext` | userspace/libbcmcrypto/src/aes.c:281-282 | incrementing byte 15 with a carry into byte 14 adds one modulo 2^16 |
| `Ccm.CtrCrypt` | userspace/libbcmcrypto/src/aes.c:263-294 | every byte is exclusive-ored with the key stream of counter (start + k) mod 2^16, in place or not; refuses more than 2^16 blocks |
| `Ccm.StreamTwice` | userspace/libbcmcrypto/src/aes.c:263-294 | counter mode is its own inverse |
| `Ccm.AbsorbByte` | userspace/libbcmcrypto/src/aes.c:344-353 | the byte-at-a-time loop chains whole blocks and keeps the rest masked in |
| `Ccm.CcmMac` | userspace/libbcmcrypto/src/aes.c:303-384 | CBC-MAC over B_0 ++ l(aad)++aad++0* ++ m++0*, for every message and every additional data in range |
| `Ccm.CcmEncrypt` | userspace/libbcmcrypto/src/aes.c:394-432 | ciphertext and encrypted MAC, in place or not; refuses exactly the lengths out of range |
| `Ccm.CcmDecrypt` | userspace/libbcmcrypto/src/aes.c:441-483 | accepts exactly what opens, and then returns the message |
| `Ccm.OpenSealed` | userspace/libbcmcrypto/src/aes.c:394-483 | decryption accepts and inverts encryption |
| `Ccm.SealOpened` | userspace/libbcmcrypto/src/aes.c:394-483 | whatever decryption accepts is what encryption produces for that message |
| `CcmStandard.LengthField` | userspace/libbcmcrypto/src/aes.c:320-328 | B_0: flags 64*Adata + 8*((M-2)/2) + (L-1), nonce, and the message length modulo 2^16 in the last two bytes, which is the length if and only if that is below 2^16 |
| `CcmStandard.AadHeader` | userspace/libbcmcrypto/src/aes.c:338-345 | the additional data after its length in two bytes, exact for all lengths accepted, with the fewest zeros that fill a block |
| `CcmStandard.CounterBlock` | userspace/libbcmcrypto/src/aes.c:406-411 | A_i: flags L-1, nonce, and the counter modulo 2^16 in the last two bytes |
| `CcmStandard.StreamSeparate` | userspace/libbcmcrypto/src/aes.c:394-432 | the key stream block that crypts the MAC crypts no part of the message if and only if that has at most 16*65535 bytes, one block less than accepted |
| `CcmStandard.CountersDistinct` | userspace/libbcmcrypto/src/aes.c:263-294 | no two blocks of a message have the same counter |
| `CcmStandard.PacketVector1` | userspace/libbcmcrypto/src/aes.c:303-432 | packet vector 1 of RFC 3610, for any cipher with the vector's seven values |
| `Md32.LoadRest` | userspace/libbcmcrypto/src/md32_common.h:309-315 | or-ing bytes into the free places of a partial word keeps its first bytes |
| `Md32.LoadSome` | userspace/libbcmcrypto/src/md32_common.h:316-323 | the same when the bytes do not reach the end of the word |
| `Md32.LoadFirst` | userspace/libbcmcrypto/src/md32_common.h:324-331 | the first bytes of a word, the rest zero |
| `Md32.Append` | userspace/libbcmcrypto/src/md32_common.h:429-454 | adding to a partial buffer without filling it |
| `Md32.FillUp` | userspace/libbcmcrypto/src/md32_common.h:417-428 | completing a partial buffer to a block |
| `Md32.CountBits` | userspace/libbcmcrypto/src/md32_common.h:403-409 | Nh:Nl stays the bit length modulo 2^64 |
| `Md32.PaddedLayout` | userspace/libbcmcrypto/src/md32_common.h:531-565 | the message, 0x80, zeros, and the bit length modulo 2^64 as a big-endian number in the last eight bytes, in the fewest whole blocks |
| `Md32.Context.Update` | userspace/libbcmcrypto/src/md32_common.h:394-508 | the context represents the concatenation: chaining value of the whole blocks, the tail packed in words, the length |
| `Md32.Context.Final` | userspace/libbcmcrypto/src/md32_common.h:531-577 | the block function folded over the message padded as in section 5.1.1 of FIPS 180-4 |
| `Md32.Digest` | userspace/libbcmcrypto/src/md32_common.h:394-577 | the digest depends on the bytes alone, for every split into updates |
| `Sha256.Extend` | userspace/libbcmcrypto/src/sha256.c:249-252 | the ring slot becomes the next word of the textbook schedule |
| `Sha256.Round` | userspace/libbcmcrypto/src/sha256.c:244-247 | a round that changes only d and h is a textbook round under renamed registers |
| `Sha256.BlockUnrolled` | userspace/libbcmcrypto/src/sha256.c:255-324 | the ring and the renaming unrolled by eight compute the textbook block function |
| `Sha256.BlockSmall` | userspace/libbcmcrypto/src/sha256.c:187-240 | so does the small-footprint loop |
| `Sha256.Sha256Block` | userspace/libbcmcrypto/src/sha256.c:187-324 | either form chains every block sequence to the same value |
| `Sha256.MakeString` | userspace/libbcmcrypto/src/sha256.c:119-138 | the whole words of the chaining value, most significant byte first, and nothing else; refuses more than 32 bytes |
| `Sha256.ValueOfWord` | userspace/libbcmcrypto/src/sha256.c:119-138 | loading the four bytes a word is stored as gives the word back |
| `Sha256.DigestReadBack` | userspace/libbcmcrypto/src/sha256.c:119-138 | equal digests come from equal chaining values |
| `Sha256.Hash` | userspace/libbcmcrypto/src/sha256.c:42-99 | SHA-256 and SHA-224 of any sequence of updates: the bytes of the textbook function's value on the padded message |
| `Sha256Standard.PrimesInOrder` | userspace/libbcmcrypto/src/sha256.c:153-170 | the list used below holds exactly the primes up to 311, each once and in order |
| `Sha256Standard.RoundConstants` | userspace/libbcmcrypto/src/sha256.c:153-170 | the i-th constant is the first 32 bits of the fraction of the cube root of the i-th prime, for all 64 |
| `Sha256Standard.FractionUnique` | userspace/libbcmcrypto/src/sha256.c:153-170 | only one word is that fraction |
| `Sha256Standard.InitialValues` | userspace/libbcmcrypto/src/sha256.c:42-69 | the start values are the first 32 bits of the fractions of the square roots of the first eight primes, for SHA-224 the second 32 bits for the next eight |
| `Sha256Standard.Sigma0Bits` | userspace/libbcmcrypto/src/sha256.c:177-177 | bit j is the exclusive or of bits j+2, j+13 and j+22 modulo 32 |
| `Sha256Standard.Sigma1Bits` | userspace/libbcmcrypto/src/sha256.c:178-178 | bit j is the exclusive or of bits j+6, j+11 and j+25 modulo 32 |
| `Sha256Standard.LowSigma0Bits` | userspace/libbcmcrypto/src/sha256.c:179-179 | bit j is the exclusive or of bits j+7 and j+18 modulo 32 and, if there is one, bit j+3 |
| `Sha256Standard.LowSigma1Bits` | userspace/libbcmcrypto/src/sha256.c:180-180 | bit j is the exclusive or of bits j+17 and j+19 modulo 32 and, if there is one, bit j+10 |
| `Sha256Standard.ChBits` | userspace/libbcmcrypto/src/sha256.c:182-182 | bit by bit the first word chooses between the other two |
| `Sha256Standard.MajBits` | userspace/libbcmcrypto/src/sha256.c:183-183 | bit by bit the majority of the three words |
| `Sha256Standard.BitsMakeWord` | userspace/libbcmcrypto/src/sha256.c:177-183 | a word is determined by its 32 bits, so the laws above determine the six functions |
| `Sha256Standard.AbcDigest` | userspace/libbcmcrypto/src/sha256.c:42-324 | the 32 bytes of the digest of the message abc, the example of FIPS 180-4 |
| `PassHash.F` | userspace/libbcmcrypto/src/passhash.c:32-62 | the exclusive or of U_1 to U_c of section 5.2 of RFC 2898 over HMAC keyed by the password, which is left alone |
| `PassHash.OneGo` | userspace/libbcmcrypto/src/passhash.c:72-81 | both blocks of the key derived with HMAC under the password; refuses passwords and SSIDs out of range |
| `PassHash.Stepwise.Do` | userspace/libbcmcrypto/src/passhash.c:148-173 | advances by the step, zero included, but not past the end of a block; returns 0 exactly when both blocks are done, -1 after that |
| `PassHash.Stepwise.Get` | userspace/libbcmcrypto/src/passhash.c:175-183 | succeeds only when both blocks are done, with the derived bytes |
| `PassHash.StepsMatchOneGo` | userspace/libbcmcrypto/src/passhash.c:72-183 | any positive steps terminate and yield exactly the bytes of the one-go form, which are the derived key |
| `HmacStandard.SaltLayout` | userspace/libbcmcrypto/src/passhash.c:38-47 | the salted text is the SSID and the number of the block in four bytes, most significant first |
| `HmacStandard.DerivedIs` | userspace/libbcmcrypto/src/passhash.c:32-81 | byte i of the key is the exclusive or of byte i modulo 20 of 4096 iterations of HMAC from the salted SSID of its block, written with the operator |
| `Prf.AddByte` | userspace/libbcmcrypto/src/sha1.c:218-240 | one more byte keeps the context representing the message, until the length counter overflows, which corrupts it |
| `Prf.Input` | userspace/libbcmcrypto/src/sha1.c:199-243 | a context after more bytes represents the longer message; at 2^64 bits it is corrupted although the call succeeds; corrupted and finished contexts refuse |
| `Prf.Result` | userspace/libbcmcrypto/src/sha1.c:147-179 | the block function folded over the padded message, the same again on a second call, the error of a corrupted context |
| `Prf.HmacSha1` | userspace/libbcmcrypto/src/prf.c:30-84 | HMAC with the effective key; a key longer than a block is overwritten by its hash |
| `HmacStandard.PadBytes` | userspace/libbcmcrypto/src/prf.c:62-70 | taking the pad byte off a pad gives the key and zeros |
| `HmacStandard.SamePads` | userspace/libbcmcrypto/src/prf.c:62-70 | two keys of up to a block have the same pad if and only if they agree up to trailing zeros |
| `HmacStandard.HmacIs` | userspace/libbcmcrypto/src/prf.c:38-84 | the value of section 2 of RFC 2104 for any 64-byte strings that give the key back under 36 and 5c; a long key by its hash |
| `HmacStandard.InputLayout` | userspace/libbcmcrypto/src/prf.c:106-123 | prefix, zero byte, data, and the number of the block in the last byte; without prefix no zero byte |
| `Prf.Slow` | userspace/libbcmcrypto/src/prf.c:95-125 | the blocks of PRF, each from the key buffer as the calls before left it |
| `Prf.Fast` | userspace/libbcmcrypto/src/prf.c:130-202 | the blocks of fPRF from copied contexts |
| `Prf.FastAgrees` | userspace/libbcmcrypto/src/prf.c:95-202 | the two agree for every hash, every key of up to 64 bytes and every length, and for longer keys on one block |
| `Prf.SecondBlocksDiffer` | userspace/libbcmcrypto/src/prf.c:95-202 | for every key over 64 bytes there is a hash under which the second blocks differ |
| `Prf.FastIsSlow` | userspace/libbcmcrypto/src/prf.c:95-202 | the two agree for every hash if and only if the key has at most 64 bytes or one block is asked for |
| `Prf.GuardAdmitsOneMore` | userspace/libbcmcrypto/src/prf.c:106-107 | the guard admits exactly the inputs that fit, and one length more when there is a prefix |
| `Stations.OnOneChain` | userspace/nas/src/nas.c:151-294 | a used slot is on exactly one chain, exactly once, the one of its own address; an unused slot is on none |
| `Stations.ShapeRemoved` | userspace/nas/src/nas.c:176-193 | unlinking a slot keeps the shape of all chains |
| `Stations.ShapeEntered` | userspace/nas/src/nas.c:285-288 | pushing a new station keeps the shape, and no address occurs twice |
| `Stations.StationCache.Toss` | userspace/nas/src/nas.c:150-194 | the slot becomes unused, nothing else changes, the shape is kept |
| `Stations.StationCache.Find` | userspace/nas/src/nas.c:210-213 | finds the slot of an address, or there is none |
| `Stations.StationCache.Choose` | userspace/nas/src/nas.c:226-247 | the first free slot, else the first of those used least recently, else none |
| `Stations.ChosenUnique` | userspace/nas/src/nas.c:226-247 | the choice is determined; there is none exactly when the pool is full with nothing older than now; a used slot is given up only when there is no other, and it is one of those unused for longest |
| `Stations.StationCache.Lookup` | userspace/nas/src/nas.c:200-294 | returns the slot of the address with its time stamp set; entering changes no other station but the one in the chosen slot; no result exactly in the cases the comment names; the shape is kept |
| `PaeMachine.Pae.Become` | userspace/nas/src/nas.c:297-368 | each state's entry actions and the canned frames it sends, with DISCONNECTED falling through to CONNECTING |
| `PaeMachine.Pae.SendCanned` | userspace/nas/src/nas.c:421-452 | the frame carries the identifier's low byte and goes the way the station came |
| `PaeMachine.Pae.EapolReceived` | userspace/nas/src/nas.c:606-802 | the effect of every kind of frame in every state, and what it sends to the station and the driver |
| `PaeMachine.Pae.Second` | userspace/nas/src/nas.c:1032-1063 | the effect of one second in every state, and what it sends |
| `PaeMachine.Pae.ReadAttributes` | userspace/nas/src/nas_radius.c:70-440 | what the attribute loop leaves in the station and in its locals, stopping at the first error; each Message-Authenticator is judged for itself |
| `PaeMachine.Pae.ReplyReceived` | userspace/nas/src/nas_radius.c:59-565 | the effect of a reply, the message it relays, what it sends to the station and the driver, and when its key makes the station be given up; the request is consumed whatever it says |
| `PaeMachine.Pae.Forward` | userspace/nas/src/nas_radius.c:591-696 | the new request replaces the old one, which is gone even if sending fails |
| `PaeRuns.EnteredRests` | userspace/nas/src/nas.c:297-368 | every state but the transient ones is entered with its countdown started |
| `PaeRuns.EapolRests` | userspace/nas/src/nas.c:606-802 | frames keep the resting states, never authenticate, and do nothing to a held station |
| `PaeRuns.TickRests` | userspace/nas/src/nas.c:1015-1067 | the watchdog keeps the resting states and never authenticates; a held station leaves only when its countdown ends |
| `PaeRuns.RadiusRests` | userspace/nas/src/nas_radius.c:36-565 | replies keep the resting states, do nothing to a held station and authenticate only by a granting reply; one that is accepted does |
| `PaeRuns.RunRests` | userspace/nas/src/nas.c:297-1067 | over every run the state rests in one of five with its countdown in 1..max, and a held station has no outstanding request |
| `PaeRuns.AuthenticatedWasGranted` | userspace/nas/src/nas_radius.c:442-481 | whoever is authenticated was let in by a signed Access-Accept that answered the outstanding request and found the success flag; the state has been AUTHENTICATED since |
| `PaeRuns.RunPaired` | userspace/nas/src/nas_radius.c:59-696 | every consumed reply answers the request sent last, with nothing sent or consumed in between |
| `PaeRuns.SendingConsumedOnce` | userspace/nas/src/nas_radius.c:59-696 | over every run each sending is consumed at most once |
| `PaeRuns.ConsumedInOrder` | userspace/nas/src/nas_radius.c:59-696 | two consumed replies have two sendings, each after the reply before |
| `PaeRuns.AcceptsExactly` | userspace/nas/src/nas_radius.c:442-481 | an Access-Accept lets the station in if and only if it answers the request, is signed and free of errors, and the flag was set before or it carries an EAP-Success itself |
| `PaeRuns.FlagAfterReply` | userspace/nas/src/nas_radius.c:120-142 | a reply sets the success flag if and only if it answers the request and carries an EAP-Success, signed or not |
| `PaeRuns.SuccessIsSigned` | userspace/nas/src/nas_radius.c:466-475 | every reply that lets a station in carries the EAP-Success under its own signature if and only if the flag was clear when it came |
| `PaeRuns.LeftOverSuccess` | userspace/nas/src/nas_radius.c:70-565 | a run that ends authenticated although no reply was both signed and carried an EAP-Success |
| `PaeRuns.FlagHasOrigin` | userspace/nas/src/nas_radius.c:120-142 | over every run a set flag was set by one reply to an outstanding request that carried an EAP-Success |
| `PaeRuns.OriginUnique` | userspace/nas/src/nas_radius.c:120-142 | by no other |
| `PaeRuns.AuthenticatedHasOrigin` | userspace/nas/src/nas_radius.c:120-481 | the success used for an authenticated station came with one reply; it is the granting reply if and only if the flag was clear before that |
| `PaeRuns.RelayedWhole` | userspace/nas/src/nas_radius.c:123-149 | the relayed message is the server's whole message if and only if it comes in at most fifteen attributes |
| `PaeRuns.SuccessAnnounced` | userspace/nas/src/nas.c:309-315 | the station is sent an EAP-Success if and only if a reply lets it in |
| `PaeRuns.HeldAnnounced` | userspace/nas/src/nas_radius.c:466-541 | a station that becomes held is sent a failure, then its port is closed |
| `PaeRuns.RunAsked` | userspace/nas/src/nas.c:344-364 | over every run the last frame a connecting station was sent carries the low byte of its identifier |
| `PaeRuns.EchoTakenOn` | userspace/nas/src/nas.c:700-712 | a station that echoes that identifier is taken on if and only if the station's own is below 256 |
| `PaeRuns.IdGrows` | userspace/nas/src/nas.c:1049-1055 | the identifier of a station that stays silent passes every bound |
| `PaeRuns.HeldHolds` | userspace/nas/src/nas.c:634-637 | a held station is unchanged by any frames and replies until as many seconds have passed as its quiet period has left |
| `PaeLaws.AttributesRead` | userspace/nas/src/nas_radius.c:70-440 | the loop fails if and only if some attribute is invalid; otherwise it finds whether there are a signature and a key, the first EAP message, the last timeout and server state, and sets the flag for a success in that first message |
| `PaeLaws.RejectionHolds` | userspace/nas/src/nas_radius.c:541-547 | a valid Access-Reject that answers the request leaves the station HELD for 60 seconds without session or request, and sends a failure and the order to close the port |
| `PaeLaws.HeldExactly` | userspace/nas/src/nas_radius.c:442-547 | a station becomes held by a reply if and only if that is such a rejection, or a signed and valid Access-Accept while no success has been seen |
| `PaeLaws.AuthenticatedExactly` | userspace/nas/src/nas_radius.c:442-481 | a station becomes authenticated by a reply if and only if that is a signed and valid Access-Accept and a success has been seen |
| `PaeLaws.OtherReplies` | userspace/nas/src/nas_radius.c:59-565 | any other reply leaves state and countdowns alone; the request is gone if it is answered |
| `PaeLaws.SessionGranted` | userspace/nas/src/nas_radius.c:477-486 | the session lasts as long as the last timeout says, or as the station had left, but not longer than the limit, which also stands in for none; the success frame carries the server's identifier |
| `PaeLaws.KeyRefusedExactly` | userspace/nas/src/nas_radius.c:485-540 | a station that is let in is given up if and only if its key is refused, by the WPA code or the driver according to its mode |
| `PaeLaws.RelayedExactly` | userspace/nas/src/nas_radius.c:452-460 | which replies' EAP messages are relayed: those of valid replies that are signed or reject, except the success and the failure the authenticator announces itself |
| `PaeLaws.RejectedUntilGranted` | userspace/nas/src/nas_radius.c:442-547 | over every run a rejected station is authenticated only after a later reply that grants it access |
| `PaeLaws.RejectedStaysOut` | userspace/nas/src/nas_radius.c:541-547 | a rejected station stays held for 60 seconds, whatever frames and replies come |
| `PaeLaws.SessionEnds` | userspace/nas/src/nas.c:1033-1044 | a session of n seconds runs down and ends on the n-th with an identity request under identifier 0, except in a pre-shared key mode, where the station keeps its state |
| `PaeLaws.AuthenticationTimesOut` | userspace/nas/src/nas.c:1057-1062 | an unanswered authentication is aborted on the last second of its countdown, under the next identifier |
| `PaeLaws.HoldEnds` | userspace/nas/src/nas.c:1045-1048 | a held station is asked again on the last second of its quiet period |
| `PaeLaws.AskedAfterPeriod` | userspace/nas/src/nas.c:1049-1055 | every period of asking ends in another identity request, the fourth under the next identifier |
| `PaeLaws.TickSends` | userspace/nas/src/nas.c:1032-1063 | what every second sends in every state |
| `PaeLaws.LogoffEnds` | userspace/nas/src/nas.c:772-787 | a logoff leaves every state for CONNECTING with the success flag and the session gone, and what it sends; the request survives only if the station was connecting or authenticated |
| `PaeLaws.StartAsks` | userspace/nas/src/nas.c:757-767 | a start frame asks under identifier 0, or 1 if it aborts an authentication |
| `PaeLaws.IdentityStarts` | userspace/nas/src/nas.c:695-746 | a frame starts an authentication if and only if it is a whole identity response under the station's identifier while none is running; its sixty seconds, name and request |
| `PaeLaws.OtherPackets` | userspace/nas/src/nas.c:695-752 | any other packet is forwarded or ignored, and changes nothing but the request and the way the station came |
| `PaeLaws.Unreached` | userspace/nas/src/nas.c:606-690 | a frame that does not reach the authenticator changes and sends nothing, nor do keys and alerts send anything |
| `Authenticator.Nas.EapolDispatch` | userspace/nas/src/nas.c:606-802 | one frame: look-up, and the inputs it means to the slot: an entry for a new address, the frame, the loss exactly if the WPA code gives the station up and it is not kept; every other slot unchanged, all slots at rest |
| `Authenticator.Nas.RadiusDispatch` | userspace/nas/src/nas_radius.c:36-565 | one reply: only the slot of its identifier can change, by the reply and the loss of the station exactly if its key is refused and it is not kept |
| `Authenticator.Nas.Cleanup` | userspace/nas/src/nas.c:95-145 | the station is tossed unless it is kept; no other slot changes |
| `Authenticator.Nas.Watchdog` | userspace/nas/src/nas.c:1014-1067 | walking all chains gives every station in the pool exactly one second |
| `Authenticator.Nas.Associate` | userspace/nas/src/nas.c:940-953 | an association: look-up, the mode the WPA code sets, an identity request or the loss of the station |
| `Authenticator.Nas.GiveUp` | userspace/nas/src/nas.c:956-964 | the loss of a known station unless it is kept; nothing for an unknown one |
| `Authenticator.Nas.Play` | userspace/nas/src/nas.c:606-1067 | over every run of the whole pool from its start each slot is the station machine run over its share of the events, and has sent what that run sends; all slots stay at rest |
| `Authenticator.PoolGranted` | userspace/nas/src/nas.c:606-1067 | over every run of the pool whoever is authenticated was let in by a reply that arrived for its slot |
| `Authenticator.SecondsFed` | userspace/nas/src/nas.c:1014-1067 | over every run each slot sees every second exactly once |
| `PoolLaws.LossOutcome` | userspace/nas/src/nas.c:956-964 | giving a station up empties its slot, unless it is of a WDS link or has a session under WPA2; a handshake that timed out has none |
| `PoolLaws.ReplyOutcome` | userspace/nas/src/nas_radius.c:485-540 | a reply empties the slot if and only if the key it brings is refused and the station does not stay; otherwise the station is as the reply leaves it |
| `PoolLaws.FrameOutcome` | userspace/nas/src/nas.c:640-690 | a frame empties the slot if and only if it is a key for the WPA code, which gives the station up, and that does not stay |
| `PoolLaws.AssociationOutcome` | userspace/nas/src/nas.c:940-953 | what each outcome of an association leaves of a known or new station |

## Left out

- Memory: failed allocations, buffer growth and the limit on context temporaries; expansion succeeds, with the spare
  word the allocator adds. Whether an operand of `BN_mul` has a spare word for padding is left open in the model.
- Leading-zero bookkeeping inside `BN_div` (`snum->top`, `wnum.top`, `tmp->top`): the window is a fixed slice of the
  dividend, one word longer than the divisor. The internal assertion of `bn_div_words` is not modelled.
- Unrolled code: word loops unrolled by four, and the straight-line columns of the comba kernels, are written as loops
  over the same words in ascending order. SHA-256's unrolling by eight is kept.
- `bn_mul_part_recursive`, `bn_mul_high`, the low-half products, reciprocal division, prime and random generation, number
  parsing and printing, and code under `NOT_NEEDED_FOR_DH`.
- Word sizes other than 32 bits, the double-width integer and assembler branches, and big-number Montgomery reduction.
- WordDivision.DivWords: a high word of twice the divisor or more, for which the quotient does not fit one word; every
  caller passes a remainder or a normalised divisor.
- ModExp.ModExpMont: the modulus must not be zero, since its lowest word is read first.
- Montgomery.NegInverse: a modulus whose lowest word is zero is read as the modulus zero in the word inversion.
- DiffieHellman.Party.GenerateKey: drawing the secret exponent, and its length, are the caller's.
- Aes.KeySetupEnc: the tables as data; they are given by the formula of the comment, and a word by its four bytes. The
  S-box is a parameter, which the examples take from figure 7 of FIPS 197.
- Sha256.Hash: the example of a digest is that of SHA-256; SHA-224 differs in its start value and length only.
- Prf.HmacSha1: SHA-1's block function is a parameter, so there is no example of a digest.
- AES-CBC and CCMP packet handling, RC4, DES, MD4, MD5 and the TKIP functions.
- KeyWrap.AesUnwrap: an empty input, whose output length would be negative, is outside the domain.
- Ccm.CcmEncrypt: the cipher is a function, so the key schedule and its key length argument do not appear.
- Little-endian data order, alignment cases and the assembler macros of the hash collector; they load the same words.
- Sha256.Sha256Block: the variant for words already in host order runs the same rounds on the same words.
- PassHash.Stepwise.Do: integer overflow of the iteration count, and negative steps, with which it goes backwards.
- PassHash.OneGo: a password of more than 64 bytes as a key, which its length as a string excludes.
- Prf.Slow: the input one byte longer than the buffer that the guard admits.
- Prf.Fast: the same input.
- The WPA handshake, supplicant mode, Passpoint contents of vendor attributes, key delivery after acceptance, sockets,
  daemons, timers and configuration.
- PaeMachine.Pae.Forward: the attributes of the request, of which only the identifier and the random authenticator are kept.
- PaeMachine.Pae.ReplyReceived: the frames and driver calls that deliver keys; whether the key is refused is an input.
- PaeMachine.Pae.ReadAttributes: attributes arrive cut by their length octets. An octet below 2, on which the C loop does
  not advance, is not modelled, nor is the byte-level parsing of vendor attributes, which appears as malformed or not.
- Authenticator.Nas.EapolDispatch: frames for supplicant mode and the per-station group key message are not modelled.
- Authenticator.Nas.Associate: the WPA code's judgement of an association is an input.
- The kernel driver shadow layer, the event daemon and its station cache.
