# A verified model of the FIBOS core

FIBOS is a JavaScript host for an EOSIO node. This project models the parts of it whose correctness is not
obvious from reading the code, and proves what each of them is for:

- the single- and double-limb division macros of the bundled GMP, which divide by a precomputed reciprocal
  (`Limbs`, `Reciprocal`);
- its two prime sieves: the generator behind `gmp_nextprime` and the segmented bit sieve `gmp_primesieve`, with
  the table generator and the trial division that feed it (`Divisions`, `Words`, `Primes`, `NextPrime`,
  `SieveBits`, `GenSieve`, `SievePattern`, `SegmentedSieve`, `PrimeGaps`);
- its chunked temporary allocator (`TmpAlloc`);
- `InfInt`, the base 10^9 big integer (`InfInts`, over `Digits`, `Products`, `Quotients`, `Decimal`,
  `DecimalText`);
- `BaseConverter`, the hexadecimal conversions and the difficulty test built on them (`Alphabets`,
  `BaseConverters`, `Hex`, `Difficulty`);
- recursive-length-prefix encoding of block headers (`Rlp`, `RlpEncoder`), and the hash of a header
  (`HeaderHashing`);
- Keccak, SHA-3 and SHAKE (`KeccakSpec`, `Keccak`, `SpongeSpec`, `Sponge`), against FIPS 202 on strings of bits
  (`Fips202`, `KeccakBits`, `SpongeBits`);
- the crash-tolerant event emitter (`EmitterProtocol`, `Emitter`) and the window of ethash caches
  (`EpochProtocol`, `EpochWindow`).

## How it is modelled

Code that updates things step by step is imperative here too: an object is a class with the source's fields, a
buffer an array, a loop a loop. Each method is proved against a mathematical statement - a number, a set of primes,
a sponge, a step of a protocol - that is defined without reference to the loop.

Machine arithmetic is explicit. Limbs are integers below a symbolic B = b * b, for any even half-word base b, and
every operation is reduced modulo B where the machine would wrap. The two prime sieves use 64-bit words. `InfInt`
computes in `int32` and `int64`, so the absence of overflow is part of what verifies. The lanes and octets of Keccak
are sequences of bits.

Where a method is proved against a function that mirrors its steps, the function is in turn proved equal to a definition
of another shape: the lane-wise permutation and the octet-wise sponge to FIPS 202 on one string of bits (`Fips202`), the
pairs of hexadecimal digits to the number of the text, the RLP prefixes to the numbers of Appendix B of the Yellow Paper.

The protocols are step relations over explicit states, with a step for every stretch of code that no other thread can
observe half done. Runs are sequences of such steps in any order; in the emitter a crash and a restart may come at any
point. `EmitterPlugin` has `stash_data`, the loop of `js_handler` and `plugin_initialize` as whole methods over the
shared fields: from any state a run reaches they lead to another, and their contracts say what one call changes. Where
the two threads stand, and what has been emitted, are ghost fields. `EpochCaches` does the same for `start_epoch` and
`generate_epoch`.

## What turned out differently from what the source promises

- `fromString` loses the sign of a negative numeral whose leading piece (the one to nine characters left after
  cutting nines from the right) contains a digit but only zeros: "-0000000005" is read as 5. `InfInts.InfInt.FromString`
  says exactly when the number read is the number written; what `operator<<` prints is never affected.
- Two operations give a zero marked negative, which `operator==` tells from zero: unary minus, exactly on zero
  (`InfInts.InfInt.Negated`), and `fromString`, exactly on a zero written with a minus sign that is the leading piece
  by itself, as "-000000000" (`InfInts.InfInt.FromString`, `InfInts.InfInt.ReadNegativeZero`).
- `hash` pads as section 5.1 of FIPS 202 asks exactly if it is not the case that the delimiter has its top bit set and
  the message fills all but one octet of its last block (`SpongeSpec.PaddedIsFips`); there the two pad bits cancel. The
  delimiters of the exported functions are not affected (`SpongeSpec.InstancesPadAsFips`).
- After computing a cache `generate_epoch` does not look whether that epoch is still the next one, and `lower_epoch`
  is taken for unset when it is 0. The window is right throughout a run if and only if neither ever matters
  (`EpochProtocol.WindowRightExactly`, and as a test before each step `EpochProtocol.LookupsRightExactly`). Both can:
  a direct call of `generate_epoch` heeds no flag and can run beside the generator of a request
  (`EpochProtocol.OverlappingGeneratorsBreakWindow`), and a request for epoch 4 starts a window at 0
  (`EpochProtocol.WindowFromZeroIsMoved`). A first request for an epoch below 4 sets the window to the end of the words
  and nothing is ever generated (`EpochProtocol.SmallRequestDisables`); verifying a header of epoch 0 makes one.
  Through `start_epoch` alone two generators never overlap (`EpochProtocol.FlagExcludesSecond`).
- A request for which the temporary allocator has to grow, and whose total wraps when tripled, gets a chunk without
  room for it or leaves the total wrong; the condition is exact (`TmpAlloc.TmpStack.SizeChunk`,
  `TmpAlloc.TmpStack.AllocOverflowing`).
- The guards that `equalizeSigns` has commented out, and the trailing carry loop of `operator*`, are indeed never
  needed: the borrow search always stops at a digit of the right sign (`InfInts.InfInt.BorrowFrom`) and the carry is 0
  (`Products.NoCarryLeft`).

## Model

| member | source | states |
|---|---|---|
| `Limbs.AddSsaaaa` | vender/gmp/longlong.h:2059-2069 | the result limbs are the two-limb sum modulo B^2, carry between the limbs included |
| `Limbs.SubDdmmss` | vender/gmp/longlong.h:2071-2081 | the result limbs are the two-limb difference modulo B^2 |
| `Limbs.UmulPpmm` | vender/gmp/longlong.h:2106-2131 | the two result limbs are the full product u * v, for every pair of limbs |
| `Limbs.MiddleColumn` | vender/gmp/longlong.h:2123-2126 | the first addition to the middle column cannot carry; the second carries exactly when the sum is below the addend, and then b is owed to the upper half |
| `Reciprocal.HalfGuess` | vender/gmp/longlong.h:2157-2161 | dividing by the upper half of the divisor overestimates the quotient digit by at most 2, and leaves exactly the excess __m |
| `Reciprocal.CorrectDown` | vender/gmp/longlong.h:2161-2168 | the two nested corrections take back exactly the excess, the carry test included, and leave a remainder below d |
| `Reciprocal.HalfStep` | vender/gmp/longlong.h:2157-2168 | one half-word step is exact division of n1 * b + nh by d |
| `Reciprocal.UdivQrnndC` | vender/gmp/longlong.h:2147-2185 | exact quotient and remainder of two limbs by one normalised limb |
| `Reciprocal.InvertLimb` | vender/gmp/gmp-impl.h:3121-3128 | the reciprocal is floor((B^2 - 1) / x) - B, for every normalised x |
| `Reciprocal.CandidateRange` | vender/gmp/gmp-impl.h:3180-3232 | the true candidate remainder lies in [-d, B), its sign can be read off by comparing modulo B with the low product limb, and a needless correction cannot wrap; for nl == 0 it is already below d |
| `Reciprocal.ApplyMask` | vender/gmp/gmp-impl.h:3188-3190 | adding the mask decrements the quotient and adds d exactly when the comparison, with > or with >=, says so |
| `Reciprocal.UdivQrnndPreinv` | vender/gmp/gmp-impl.h:3180-3207 | exact quotient and remainder for every normalised d and nh < d, also in the nl == 0 branch that omits the last correction |
| `Reciprocal.UdivRnndPreinv` | vender/gmp/gmp-impl.h:3212-3232 | the remainder is exact also when nh == d |
| `Reciprocal.InvertHigh` | vender/gmp/gmp-impl.h:3133-3143 | after the first part v is the reciprocal of d1 adjusted for d0, and p the wrapped defect |
| `Reciprocal.InvertHighCarry` | vender/gmp/gmp-impl.h:3136-3143 | when adding d0 carries, one or two decrements restore the defect to the range 1 .. d1 |
| `Reciprocal.InvertLow` | vender/gmp/gmp-impl.h:3144-3154 | the low limb costs at most two more decrements, and the nested comparison finds how many |
| `Reciprocal.InvertPi1` | vender/gmp/gmp-impl.h:3130-3156 | the inverse is floor((B^3 - 1) / (d1 B + d0)) - B, for every pair with normalised d1 |
| `Reciprocal.CandidateRange3` | vender/gmp/gmp-impl.h:3242-3267 | the candidate quotient limb does not overflow, and its true remainder lies in [-d, B^2) with its sign readable from the upper limb alone |
| `Reciprocal.Guess3` | vender/gmp/gmp-impl.h:3245-3252 | the wrapped two-limb subtractions leave the candidate remainder modulo B^2 |
| `Reciprocal.Adjust3` | vender/gmp/gmp-impl.h:3253-3266 | one masked and one unlikely correction turn the candidate into the exact quotient and remainder |
| `Reciprocal.UdivQr3by2` | vender/gmp/gmp-impl.h:3242-3267 | exact quotient limb and two-limb remainder of three limbs by two, for every n < d B |
| `NextPrime.GapsAreRight` | vender/gmp/nextprime.c:64-66 | every entry of addtab leads from a spoke of the 210-wheel to the next, over multiples of 2, 3, 5 or 7 only |
| `NextPrime.WheelStep` | vender/gmp/nextprime.c:152-153 | following addtab from p with the residue of its spoke skips only numbers with a factor below 11 |
| `NextPrime.FirstSlot` | vender/gmp/nextprime.c:142-147 | pi is the first slot that holds a proper odd multiple of p |
| `NextPrime.PrimeSieve.constructor` | vender/gmp/nextprime.c:159-166 | the new generator has returned no prime yet |
| `NextPrime.PrimeSieve.Mark` | vender/gmp/nextprime.c:142-151 | one pass marks exactly the slots that hold a proper multiple of p |
| `NextPrime.PrimeSieve.MarkSmall` | vender/gmp/nextprime.c:105-136 | after the three fixed passes exactly the proper multiples of 3, 5 and 7 are marked |
| `NextPrime.PrimeSieve.UpdateRoot` | vender/gmp/nextprime.c:101-103 | sqrt_s0 is the integer square root of the last number of the block, and nothing wraps below the limit |
| `NextPrime.PrimeSieve.MarkWheel` | vender/gmp/nextprime.c:138-154 | after the wheel loop a slot of the block is 0 exactly when its number is prime |
| `NextPrime.PrimeSieve.AdvanceBlock` | vender/gmp/nextprime.c:96-99 | the block moves on by 1024, or from the wrapped 3 - 1024 to 3, and is cleared up to the sentinel |
| `NextPrime.PrimeSieve.Resieve` | vender/gmp/nextprime.c:96-155 | moving on gives a correctly sieved next block |
| `NextPrime.PrimeSieve.Next` | vender/gmp/nextprime.c:59-157 | the call ends and returns the least prime not returned before; the recursion passes over blocks without primes |
| `NextPrime.PrimesThrough` | vender/gmp/nextprime.c:59-166 | repeated calls list exactly the primes in increasing order, none skipped and none repeated |
| `SieveBits.IdOfBit` | vender/gmp/primesieve.c:45-47 | id_to_n(b + 1) is bit_to_n(b) |
| `SieveBits.BitOfNumber` | vender/gmp/primesieve.c:49-55 | n_fto_bit and n_cto_bit are the two adjoints of bit_to_n: the last bit at most n, and the first at least n |
| `SieveBits.BitsAreCoprime` | vender/gmp/primesieve.c:40-47 | the bits stand for increasing numbers coprime to 6 |
| `SieveBits.BetweenBits` | vender/gmp/primesieve.c:271-275 | a number that no bit stands for is divisible by 2 or 3 |
| `Words.RotateOneHot` | vender/gmp/primesieve.c:239 | rotating a one-bit mask by k moves its bit k places modulo 64 |
| `GenSieve.SmallPrimes` | vender/gmp/bootstrap.c:46-56 | below 49 a number with no factor 2, 3 or 5 is prime, and conversely |
| `GenSieve.MaskIsRight` | vender/gmp/bootstrap.c:46-47 | bit t of the constant 0xa08a28ac is set exactly when t is prime, for t < 32 |
| `GenSieve.RootReached` | vender/gmp/bootstrap.c:62-63 | if no divisor below d was found and t / d < d, then t is prime |
| `GenSieve.SkippedDivisor` | vender/gmp/bootstrap.c:66-73 | the divisors that the steps 2 and 4 jump over cannot divide t |
| `GenSieve.IsPrimeTrial` | vender/gmp/bootstrap.c:41-76 | the answer is right for every t, 0 and 1 included |
| `GenSieve.Generate` | vender/gmp/gen-sieve.c:39-93 | the table has a clear bit exactly for the primes among the numbers coprime to 6 |
| `GenSieve.SetMask` | vender/gmp/gen-sieve.c:95-102 | bit i of the mask is set exactly when bit_to_n(i) is divisible by a or b |
| `GenSieve.PatternPeriodic` | vender/gmp/gen-sieve.c:95-102 | divisibility by a or b has period 2ab in the bit number, so one mask suffices |
| `SievePattern.SetOff1` | vender/gmp/primesieve.c:62-81 | for every offset the two words show the 110-bit pattern from that offset on, in all three branches |
| `SievePattern.SetOff2` | vender/gmp/primesieve.c:83-125 | for every offset the three words show the 182-bit pattern from that offset on, in all branches |
| `SievePattern.Rotate1` | vender/gmp/primesieve.c:127-133 | the rotation moves the window over the 110-bit pattern on by one limb; spilled bits agree with those they are combined with |
| `SievePattern.Rotate2` | vender/gmp/primesieve.c:135-143 | the rotation moves the window over the 182-bit pattern on by two limbs |
| `SievePattern.AdvanceIsModulo` | vender/gmp/primesieve.c:163-167 | the windows' positions are the bit offset modulo 110 and 182 |
| `SievePattern.PatternsMeet` | vender/gmp/primesieve.c:160-164 | the two windows or-ed together mark exactly the multiples of 5, 7, 11 and 13 |
| `SievePattern.FillBitpattern` | vender/gmp/primesieve.c:145-194 | bit t of limb j is set exactly when bit_to_n(offset + 64 j + t) is divisible by 5, 7, 11 or 13; nothing else is written |
| `SegmentedSieve.ClosedForms` | vender/gmp/primesieve.c:222-243 | the two closed forms are the bits of p * p and of p times the next number coprime to 6 |
| `SegmentedSieve.EnterBlock` | vender/gmp/primesieve.c:231-234 | the jump into the block keeps the track: the same bits of the block are hit as from the start |
| `SegmentedSieve.Strike` | vender/gmp/primesieve.c:236-240 | the loop with the rotating mask sets exactly the bits first, first + step, ... of the block |
| `SegmentedSieve.TracksAreMultiples` | vender/gmp/primesieve.c:222-254 | the two tracks together are exactly the bits of multiples of p from p * p on |
| `SegmentedSieve.StrikeMultiples` | vender/gmp/primesieve.c:228-254 | one round sets exactly the bits of the block whose numbers are multiples of p not below p * p |
| `SegmentedSieve.MarkedBlock` | vender/gmp/primesieve.c:214-255 | a round keeps every prime clear and completes the block up to the factor p |
| `SegmentedSieve.MaskWraps` | vender/gmp/primesieve.c:256-257 | the rotated mask and the advanced pointer select the next bit, over limb ends as well |
| `SegmentedSieve.SieveWith` | vender/gmp/primesieve.c:214-255 | the round breaks exactly when p * p lies past the block, and otherwise completes the block for p |
| `SegmentedSieve.Candidate` | vender/gmp/primesieve.c:213-257 | one pass of the do loop either finishes the block or hands the loop state on to the next candidate |
| `SegmentedSieve.BlockFinished` | vender/gmp/primesieve.c:225-226 | when the loop breaks, the block's clear bits are exactly its primes |
| `SegmentedSieve.BlockResieve` | vender/gmp/primesieve.c:196-259 | a prime past the root of the block's end among the sieved bits makes the do loop end, with the whole array sieved up to the block's end |
| `SegmentedSieve.StopExists` | vender/gmp/primesieve.c:297-302 | such a prime exists for every block gmp_primesieve asks for, however large n is |
| `SegmentedSieve.CopyTable` | vender/gmp/primesieve.c:291-293 | the copied prefix is correctly sieved, with the table that gen-sieve generates |
| `SegmentedSieve.SieveBlocks` | vender/gmp/primesieve.c:295-303 | the first, odd-sized block and the whole blocks after it leave every limb sieved and nothing else changed |
| `SegmentedSieve.TailIsSet` | vender/gmp/primesieve.c:305-306 | setting the tail leaves a clear bit exactly for the primes up to n |
| `SegmentedSieve.ClearBitsArePrimes` | vender/gmp/primesieve.c:308 | in a sieved array, the number of clear bits is the number of primes from 4 below the last bit |
| `SegmentedSieve.CountIsRight` | vender/gmp/primesieve.c:305-308 | size * 64 minus the population count is the number of primes in [4, n] |
| `SegmentedSieve.GmpPrimesieve` | vender/gmp/primesieve.c:279-309 | for every n > 4 the call ends, bit b is 0 exactly when it stands for a prime at most n, the count is the number of primes in [4, n], and limbs past the size are untouched |
| `PrimeGaps.PrimeBetween` | vender/gmp/primesieve.c:211-258 | for every m from 2^17 on a prime p at most 2m has 4m + 1 < p * p: the sentinel that the unguarded loop relies on |
| `Digits.UniqueTrimmed` | src/cross/include/InfInt.h:723-735 | digit vectors in normal form with the same value are the same vector |
| `Digits.LongerIsLarger` | src/cross/include/InfInt.h:760-765 | a longer normal form is a larger number |
| `Digits.CarryOver` | src/cross/include/InfInt.h:1040-1048 | moving a quotient by the base to the next digit keeps the value |
| `Digits.BorrowThrough` | src/cross/include/InfInt.h:1066-1094 | a borrow that runs through zeros changes the value by exactly the borrow |
| `InfInts.InfInt.TruncateToBase` | src/cross/include/InfInt.h:1035-1050 | every digit ends within the base, without overflow, and the value is kept |
| `InfInts.InfInt.BorrowFrom` | src/cross/include/InfInt.h:1066-1094 | the borrow search stops inside the vector at a digit of the right sign, and the value is kept |
| `InfInts.InfInt.EqualizeSigns` | src/cross/include/InfInt.h:1052-1099 | all digits end with one sign, the returned one, which is that of the value; the value is kept |
| `InfInts.InfInt.RemoveLeadingZeros` | src/cross/include/InfInt.h:1101-1112 | only leading zeros are dropped, never the last digit, and the value is kept |
| `InfInts.InfInt.CorrectWith` | src/cross/include/InfInt.h:1114-1131 | in each of its modes the vector ends in normal form with the right sign, and the represented integer is kept |
| `InfInts.InfInt.Correct` | src/cross/include/InfInt.h:1114-1131 | any digit vector that sums of canonical numbers can give ends canonical with the same integer value |
| `InfInts.InfInt.constructor` | src/cross/include/InfInt.h:207-212 | the new number is a canonical 0 |
| `InfInts.InfInt.FromInt` | src/cross/include/InfInt.h:226-248 | the new number is canonical and equals the int, the least int included |
| `InfInts.InfInt.Copy` | src/cross/include/InfInt.h:328-333 | the copy has the same digits and sign |
| `InfInts.InfInt.Assign` | src/cross/include/InfInt.h:454-460 | the target takes the digits and sign of the source, also when assigned to itself |
| `InfInts.InfInt.Increment` | src/cross/include/InfInt.h:462-468 | adds 1 to a canonical number of either sign and keeps it canonical |
| `InfInts.InfInt.Decrement` | src/cross/include/InfInt.h:470-476 | subtracts 1 from a canonical number of either sign and keeps it canonical |
| `InfInts.InfInt.PlusAssign` | src/cross/include/InfInt.h:496-507 | the exact sum, canonical, also for x += x |
| `InfInts.InfInt.MinusAssign` | src/cross/include/InfInt.h:509-520 | the exact difference, canonical, also for x -= x |
| `InfInts.InfInt.TimesAssignDigit` | src/cross/include/InfInt.h:585-594 | the exact product with an int |
| `InfInts.InfInt.Negated` | src/cross/include/InfInt.h:596-602 | the exact negation, canonical if and only if the operand is not zero |
| `InfInts.InfInt.Plus` | src/cross/include/InfInt.h:604-614 | the exact sum of two canonical numbers, canonical |
| `InfInts.InfInt.Minus` | src/cross/include/InfInt.h:616-626 | the exact difference of two canonical numbers, canonical |
| `InfInts.InfInt.AddColumn` | src/cross/include/InfInt.h:635-654 | digit plus base times carry is the carry in plus the column sum, the carry stays bounded, and only that digit is written |
| `Products.ColumnsMakeProduct` | src/cross/include/InfInt.h:635-654 | the column sums, weighted by the base, are the product of the two values |
| `Products.NoCarryLeft` | src/cross/include/InfInt.h:651-659 | after the last column the carry is 0, so the trailing loop never runs |
| `InfInts.InfInt.Times` | src/cross/include/InfInt.h:628-663 | the exact product of two canonical numbers, canonical, written inside n + m limbs |
| `InfInts.InfInt.TimesDigit` | src/cross/include/InfInt.h:712-721 | the exact product of a canonical number with an int |
| `InfInts.InfInt.MultiplyByDigit` | src/cross/include/InfInt.h:1178-1196 | the digits times a factor have the value times the factor, without overflow |
| `InfInts.InfInt.DInR` | src/cross/include/InfInt.h:1158-1176 | the binary search returns the digit in [0, 10^9 - 1] with D * digit <= R < D * (digit + 1) |
| `InfInts.InfInt.BringDown` | src/cross/include/InfInt.h:678-684 | one round of long division is exact and keeps the remainder canonical and below the divisor |
| `InfInts.InfInt.DividedBy` | src/cross/include/InfInt.h:665-688 | the canonical quotient, truncated towards zero; 0 for a zero divisor, as without exceptions |
| `InfInts.InfInt.Modulo` | src/cross/include/InfInt.h:690-710 | the canonical remainder, with the sign of the dividend; 0 for a zero divisor, as without exceptions |
| `Quotients.TruncatedDivision` | src/cross/include/InfInt.h:665-710 | quotient and remainder together satisfy a = q * b + r with r smaller than b in magnitude and of a's sign |
| `Quotients.OnlyTruncatedDivision` | src/cross/include/InfInt.h:665-710 | no other pair does |
| `InfInts.InfInt.Equals` | src/cross/include/InfInt.h:723-735 | true exactly when sign and digits agree, which for canonical numbers is when the integers are equal |
| `InfInts.InfInt.LessThan` | src/cross/include/InfInt.h:751-775 | true exactly when the integer is less |
| `InfInts.InfInt.AtMost` | src/cross/include/InfInt.h:777-801 | true exactly when the integer is at most the other |
| `InfInts.InfInt.GreaterThan` | src/cross/include/InfInt.h:803-827 | true exactly when the integer is greater |
| `Decimal.DigitCountIsExact` | src/cross/include/InfInt.h:913-917 | the digit count of a vector is the number of decimal digits of its value |
| `InfInts.InfInt.NumberOfDigits` | src/cross/include/InfInt.h:913-917 | the magnitude lies between the powers of ten that the count says, for either sign |
| `InfInts.InfInt.OptimizeSqrtSearchBounds` | src/cross/include/InfInt.h:855-869 | the bounds from the digit count bracket the square root of every positive number |
| `InfInts.InfInt.Probe` | src/cross/include/InfInt.h:885-894 | the probe is the floor midpoint, and its square is compared exactly |
| `InfInts.InfInt.Bisect` | src/cross/include/InfInt.h:884-896 | the bisection ends, also for 1, and returns the root |
| `InfInts.InfInt.IntSqrt` | src/cross/include/InfInt.h:871-897 | s * s <= n < (s + 1) * (s + 1) for every n > 0, and 0 for the rest |
| `DecimalText.LeadingZerosLoseSign` | src/cross/include/InfInt.h:1143-1154 | the numeral "-0000000005" is one that loses its sign |
| `DecimalText.NegativeZeroKeepsSign` | src/cross/include/InfInt.h:1143-1154 | among the numerals of zero with a minus sign, those whose length is one more than a multiple of nine are exactly those that keep the sign |
| `DecimalText.CutNine` | src/cross/include/InfInt.h:1139-1142 | cutting nine characters splits the reading into base times the front plus the piece |
| `InfInts.InfInt.ReadPieces` | src/cross/include/InfInt.h:1139-1142 | the pieces pushed so far, with what is left of the text, make up the numeral |
| `InfInts.InfInt.SettleSign` | src/cross/include/InfInt.h:1151-1155 | a negative head is made positive and sets the sign, exactly when it is not all zeros |
| `InfInts.InfInt.FromString` | src/cross/include/InfInt.h:1133-1156 | the number read is the number written if and only if the numeral does not lose its sign or is zero; the result is canonical if and only if the text is not a zero written with a minus sign as its whole leading piece |
| `InfInts.InfInt.ReadNegativeZero` | src/cross/include/InfInt.h:1143-1147 | a minus sign and nine zeros give a result that stands for 0 and is not equal to 0 |
| `InfInts.InfInt.ToString` | src/cross/include/InfInt.h:1211-1227 | the text is a numeral of the number, without leading zeros, and never one that loses its sign |
| `InfInts.InfInt.Reparsed` | src/cross/include/InfInt.h:1133-1227 | fromString gives back exactly the digits and sign that operator<< printed |
| `BaseConverters.Base2Dec` | src/cross/src/BaseConverter.cpp:128-142 | the number a string denotes, modulo the word; an error exactly when a character is not in the alphabet |
| `BaseConverters.Dec2Base` | src/cross/src/BaseConverter.cpp:115-126 | a non-empty string that denotes the value, without leading zeros |
| `BaseConverters.DivideDigit` | src/cross/src/BaseConverter.cpp:95-98 | one round is exact: base times the front plus the new digit is y times the quotient digit, which is in range, plus the new front |
| `BaseConverters.DividedFurther` | src/cross/src/BaseConverter.cpp:90-99 | a round keeps the prefix equal to y times the quotient plus the front |
| `BaseConverters.Divide` | src/cross/src/BaseConverter.cpp:85-113 | exact division of a digit string of any length by y, with the quotient stripped of leading zeros; an error exactly for foreign characters |
| `BaseConverters.BaseConverter.Make` | src/cross/src/BaseConverter.cpp:11-17 | refused exactly when one of the character sets is empty |
| `BaseConverters.BaseConverter.Convert` | src/cross/src/BaseConverter.cpp:43-55 | the conversion ends and keeps the number, in normal form, between any two alphabets; an error exactly for foreign characters |
| `Alphabets.WritesEveryNumber` | src/cross/src/BaseConverter.cpp:115-142 | every number can be written over a character set if and only if it has at least two characters and repeats none; over any other target some numbers have no text to be converted to |
| `Hex.FromHex` | src/cross/include/hex.hpp:17-34 | writes the bytes of the text as far as the buffer reaches, and nothing else; into a buffer of at least half the length they are the big-endian bytes of the number that the text denotes, for odd and even lengths and digits of either case |
| `Hex.DigitIsPlace` | src/cross/include/hex.hpp:6-15 | the value of a character is its place among the digits 0-9a-f or 0-9A-F, and 0 for any other |
| `Hex.EvenReadsNumber` | src/cross/include/hex.hpp:17-34 | for every text, odd or even, half its length rounded up many bytes whose big-endian value is the number that the text denotes |
| `Hex.NumberOverHexSet` | src/cross/include/hex.hpp:6-15 | on lower-case hexadecimal that number is the one of the numeral over the alphabet 0-9a-f |
| `Hex.HexToSha256` | src/cross/include/hex.hpp:36-45 | 32 bytes, the big-endian bytes of the number that the text denotes; an error exactly for more than 64 characters |
| `Hex.ToHex` | src/cross/include/hex.hpp:47-55 | two lower-case digits for every byte |
| `Hex.TextReadsBack` | src/cross/include/hex.hpp:6-55 | reading what to_hex wrote gives the bytes back |
| `Hex.BytesWriteBack` | src/cross/include/hex.hpp:6-55 | writing the bytes of an even lower-case text gives the text back |
| `Hex.HashRoundTrip` | src/cross/include/hex.hpp:36-60 | hex_to_sha256 undoes sha256_to_hex on every hash |
| `Hex.TextIsNumeral` | src/cross/include/hex.hpp:47-60 | the text of bytes is, as a hexadecimal numeral, the big-endian number of the bytes |
| `Difficulty.DecimalReads` | src/cross/plugin/cross_plugin.cpp:595-599 | what BaseConverter counts as a decimal number is what fromString reads |
| `Difficulty.ConvertedReads` | src/cross/plugin/cross_plugin.cpp:595-599 | a converted numeral is one that fromString reads without losing anything |
| `Difficulty.Big256` | src/cross/plugin/cross_plugin.cpp:596 | the 64 letters f denote 2^256 - 1 |
| `Difficulty.HexToInfInt` | src/cross/plugin/cross_plugin.cpp:595-599 | conversion and fromString together give the canonical number of the hexadecimal text |
| `Difficulty.MeetsDifficulty` | src/cross/plugin/cross_plugin.cpp:595-604 | accepted exactly when the hash as a number is at most floor((2^256 - 1) / difficulty), or 0 for difficulty zero; an error exactly for a text that is not lower-case hexadecimal |
| `Rlp.HeaderSplits` | src/cross/include/RLP.hpp:55-89 | the header that the encoder writes is split off by the decoder, whatever follows |
| `Rlp.SplitIsHeader` | src/cross/include/RLP.hpp:55-89 | the decoder accepts no other header |
| `Rlp.DecodeEncode` | src/cross/include/RLP.hpp:55-130 | decoding an encoded item gives it back and leaves the bytes after it untouched |
| `Rlp.DecodeEncodeAll` | src/cross/include/RLP.hpp:114-130 | the same for a row of items |
| `Rlp.EncodeDecode` | src/cross/include/RLP.hpp:55-130 | whatever decodes is the encoding of what it decodes to, so no item has two encodings |
| `Rlp.EncodeDecodeAll` | src/cross/include/RLP.hpp:114-130 | the same for a row of items |
| `Rlp.PrefixFree` | src/cross/include/RLP.hpp:55-130 | no encoding is a proper prefix of another |
| `Rlp.RowDetermined` | src/cross/include/RLP.hpp:114-130 | the concatenated encodings determine the items |
| `Rlp.StringsAsInAppendixB` | src/cross/include/RLP.hpp:55-71 | a string is itself if it is one byte below 128, is preceded by 128 plus its length if that is below 56, and otherwise by 183 plus the number of length bytes and the length |
| `Rlp.ListsAsInAppendixB` | src/cross/include/RLP.hpp:73-89 | a list is its items' encodings preceded by 192 plus their length if that is below 56, and otherwise by 247 plus the number of length bytes and the length |
| `Rlp.LengthForm` | src/cross/include/RLP.hpp:61-66 | the length bytes are the length, the most significant byte first, without a leading zero byte, at most eight |
| `RlpEncoder.LengthReserve` | src/cross/include/RLP.hpp:61-66 | the loop writes the length's bytes in reverse, without a leading zero byte |
| `RlpEncoder.GenerateStringHeader` | src/cross/include/RLP.hpp:55-71 | the header of a string: none, one byte, or a byte and the length |
| `RlpEncoder.GenerateArrayHeader` | src/cross/include/RLP.hpp:73-89 | the header of a list |
| `RlpEncoder.EncodeString` | src/cross/include/RLP.hpp:91-102 | the encoding of a byte string: of the characters of the text, or of the number that it denotes in hexadecimal, two digits to a byte |
| `RlpEncoder.EncodeArg` | src/cross/include/RLP.hpp:114-130 | the encoding of an arbitrarily nested vector |
| `RlpEncoder.EncodeElements` | src/cross/include/RLP.hpp:125-126 | the loop writes the encodings of the elements in order |
| `RlpEncoder.EncodeAllAppend` | src/cross/include/RLP.hpp:125-126 | the encodings of the items stand in the order of the items |
| `RlpEncoder.ItemsFromAt` | src/cross/include/RLP.hpp:125-126 | item k of a vector is its element k |
| `RlpEncoder.EncodeHash` | src/cross/include/RLP.hpp:104-107 | a hash is encoded as the byte 160 and its 32 bytes |
| `RlpEncoder.HeaderBytes` | src/cross/plugin/cross_plugin.cpp:546-562 | the bytes that are hashed decode to a list of exactly thirteen strings, which hold, in this order, the numbers that parent hash, uncle hash, coinbase, state root, transaction root, receipt root, blooms, difficulty, number, gas limit, gas used, timestamp and extra hash denote |
| `RlpEncoder.HeaderBytesDetermineFields` | src/cross/plugin/cross_plugin.cpp:546-562 | headers with the same bytes agree in the bytes of every field |
| `RlpEncoder.HeaderBytesDetermineHeader` | src/cross/plugin/cross_plugin.cpp:546-562 | headers in even lower-case hexadecimal with the same bytes are the same |
| `HeaderHashing.OctetsDetermineBytes` | src/cross/plugin/cross_plugin.cpp:564-565 | bytes as numbers and bytes as bits determine each other |
| `HeaderHashing.OctetIsBinary` | src/cross/src/keccak.cpp:47 | a byte is the sum of its bits, bit j weighing 2^j, as section B.1 of FIPS 202 orders them |
| `HeaderHashing.Keccak256` | src/cross/plugin/cross_plugin.cpp:565-567 | keccak_256 on bytes is Keccak[512] of FIPS 202, as defined on strings of bits, cut to 256 bits |
| `HeaderHashing.HeaderHash` | src/cross/plugin/cross_plugin.cpp:546-569 | the 32 bytes are Keccak[512], cut to 256 bits, of bytes that decode to the list of the thirteen fields in the order above |
| `HeaderHashing.HashedOctetsDetermineHeader` | src/cross/plugin/cross_plugin.cpp:546-569 | headers in even lower-case hexadecimal that differ are hashed from different input |
| `KeccakSpec.RolRotates` | src/cross/src/keccak.cpp:36 | two shifts combined are a rotation |
| `KeccakSpec.RhoTableIsFips` | src/cross/src/keccak.cpp:20-23 | the table holds the rotation offsets (t + 1)(t + 2) / 2 modulo 64 of section 3.2.2 |
| `KeccakSpec.PiTableIsFips` | src/cross/src/keccak.cpp:24-27 | the table follows the lane walk of sections 3.2.2 and 3.2.3, one step ahead |
| `KeccakSpec.SourceIsPredecessor` | src/cross/src/keccak.cpp:62-67 | the lane that pi moves to a place is the one visited just before it, so one temporary suffices |
| `KeccakSpec.RoundTableIsFips` | src/cross/src/keccak.cpp:28-33 | the table holds the constants that the shift register of section 3.2.5 generates |
| `KeccakSpec.RhoPiAt` | src/cross/src/keccak.cpp:62-67 | pi after rho, lane by lane, along the walk |
| `KeccakBits.ThetaAt` | src/cross/src/keccak.cpp:53-60 | a bit changes with the parity of the column at its left and of the column at its right one bit down |
| `KeccakBits.RhoAt` | src/cross/src/keccak.cpp:61-67 | a bit comes from as many places down in its lane as table 2 of FIPS 202 says |
| `KeccakBits.PiAt` | src/cross/src/keccak.cpp:61-67 | lane (x, y) comes from lane (x + 3y, x) |
| `KeccakBits.ChiAt` | src/cross/src/keccak.cpp:68-74 | a bit changes exactly where its right neighbour is clear and the next one set |
| `KeccakBits.ChiInjective` | src/cross/src/keccak.cpp:68-74 | chi sends no two states to the same one |
| `KeccakBits.ConstantAt` | src/cross/src/keccak.cpp:28-33 | each bit of each constant is the one that algorithms 5 and 6 of FIPS 202 give, by a shift register on bits |
| `KeccakBits.IotaAt` | src/cross/src/keccak.cpp:75-76 | these bits are added to lane (0, 0) and no other |
| `KeccakBits.KeccakFIsFips` | src/cross/src/keccak.cpp:45-78 | the 24 rounds on lanes are Keccak-f[1600] on the string of 1600 bits, as section 3 of FIPS 202 defines it |
| `Keccak.ThetaInPlace` | src/cross/src/keccak.cpp:53-60 | the two loops are theta of section 3.2.1 on the whole state, bit for bit |
| `Keccak.WalkDone` | src/cross/src/keccak.cpp:62-67 | a completed walk has every lane where rho and pi put it |
| `Keccak.RhoPiInPlace` | src/cross/src/keccak.cpp:61-67 | the walk with one temporary is rho followed by pi, bit for bit |
| `Keccak.ChiInPlace` | src/cross/src/keccak.cpp:68-74 | the row by row update is chi of section 3.2.4, bit for bit |
| `Keccak.IotaInPlace` | src/cross/src/keccak.cpp:75-76 | the constant of the round, bit for bit that of section 3.2.5, is added to lane 0 only |
| `Keccak.RoundInPlace` | src/cross/src/keccak.cpp:52-77 | one round is theta, rho, pi, chi, iota in this order |
| `Keccak.KeccakFInPlace` | src/cross/src/keccak.cpp:45-78 | the permutation in place is Keccak-f[1600] of section 3.3, bit for bit |
| `SpongeSpec.BytesThroughLanes` | src/cross/src/keccak.cpp:47 | reading 200 octets as lanes and writing them back changes nothing |
| `SpongeSpec.LanesThroughBytes` | src/cross/src/keccak.cpp:47 | and the other way round |
| `SpongeSpec.SqueezeAt` | src/cross/src/keccak.cpp:138-140 | octet j of output block k is octet j of the state after k more permutations |
| `SpongeSpec.PadZeros` | src/cross/src/keccak.cpp:131-133 | how many zeros pad10*1 puts between its ones, for octet-aligned messages with a suffix |
| `SpongeSpec.PaddedIsFips` | src/cross/src/keccak.cpp:131-133 | the padded message is message, suffix and pad10*1 if and only if the delimiter's top bit does not meet the last octet of the block |
| `SpongeSpec.Suffixes` | src/cross/src/keccak.cpp:146-170 | the three delimiters stand for the suffixes none, 01 and 1111 |
| `SpongeSpec.InstancesPadAsFips` | src/cross/src/keccak.cpp:146-170 | with them every message is padded as sections 5.1 and 6 ask |
| `SpongeSpec.TopDelimiterCancels` | src/cross/src/keccak.cpp:131-133 | a one-octet message whose padding cancels |
| `SpongeBits.LaneFromAt` | src/cross/src/keccak.cpp:47 | bit k of octet j of lane i is bit k of octet 8i + j: lanes are little-endian |
| `SpongeBits.BytesFromAt` | src/cross/src/keccak.cpp:47 | and they are written back in that order |
| `SpongeBits.LanesAreBits` | src/cross/src/keccak.cpp:47 | bit z of lane i is bit 64i + z of the state's string, as sections 3.1.2 and B.1 of FIPS 202 order it |
| `SpongeBits.PermutedIsFips` | src/cross/src/keccak.cpp:45-78 | the permutation on 200 octets is Keccak-f[1600] on their 1600 bits |
| `SpongeBits.AbsorbIsFips` | src/cross/src/keccak.cpp:128-137 | absorbing octets is absorbing their bits: the blocks of algorithm 8 of FIPS 202, with zeros for the capacity |
| `SpongeBits.SqueezeIsFips` | src/cross/src/keccak.cpp:138-140 | squeezing octets is squeezing their bits |
| `SpongeBits.SpongeIsFips` | src/cross/src/keccak.cpp:121-143 | hash computes SPONGE[f, pad10*1, 8 rate] of FIPS 202, on strings of bits and from the zero string, of the message followed by the suffix, for every delimiter and message whose padding is that of the standard |
| `SpongeBits.OneBlock` | src/cross/src/keccak.cpp:128-140 | a message shorter than a block is permuted once, in a state that holds message, delimiter and final bit and is zero otherwise |
| `SpongeBits.Sha3IsFips` | src/cross/src/keccak.cpp:152-160 | with rate 200 - bits / 4 and delimiter 0x06 it is SHA3 of section 6.1 |
| `SpongeBits.ShakeIsFips` | src/cross/src/keccak.cpp:146-151 | with delimiter 0x1f it is SHAKE of section 6.2 |
| `SpongeBits.KeccakIsFips` | src/cross/src/keccak.cpp:162-170 | with delimiter 0x01 it is Keccak[2 bits] of section 5.2, without a suffix |
| `SpongeBits.PermutedComputes` | src/cross/src/keccak.cpp:108-109 | the permutation that the following rows are stated for exists: it is Keccak-f[1600] on octets |
| `Sponge.Permute` | src/cross/src/keccak.cpp:108-118 | the permutation on 200 octets is Keccak-f[1600] on their bits |
| `Sponge.XorIn` | src/cross/src/keccak.cpp:105 | a block is added to the front of the state |
| `Sponge.SetOut` | src/cross/src/keccak.cpp:106 | the front of the state is copied out, and nothing else is written |
| `Sponge.AbsorbBlocks` | src/cross/src/keccak.cpp:129-130 | the full blocks are absorbed and the remainder of the message is what is left |
| `Sponge.AddLastBlock` | src/cross/src/keccak.cpp:131-135 | delimiter, pad bit and rest together add exactly the last padded block |
| `Sponge.SqueezeBlocks` | src/cross/src/keccak.cpp:138-140 | exactly the wanted number of octets is squeezed and written |
| `Sponge.HashMessage` | src/cross/src/keccak.cpp:128-142 | the output is the sponge of the padded message, for every message and output length and every rate |
| `Sponge.Hash` | src/cross/src/keccak.cpp:121-143 | refused exactly for a missing output or input or too large a rate, and then nothing is written; otherwise the first octets are the sponge and the rest of the output is left alone |
| `Sponge.Shake` | src/cross/src/keccak.cpp:146-151 | the output's bits are those of SHAKE128 and SHAKE256 of FIPS 202 on the message's bits, for every length, and nothing else is written |
| `Sponge.FixedLength` | src/cross/src/keccak.cpp:152-170 | refused for a longer output than bits / 8, and then nothing is written |
| `Sponge.Sha3` | src/cross/src/keccak.cpp:152-160 | the output's bits are those of SHA3-224 to SHA3-512 of FIPS 202, or a prefix of them; what they refuse |
| `Sponge.Keccak256Or512` | src/cross/src/keccak.cpp:162-170 | the output's bits are those of the original Keccak-256 and Keccak-512, Keccak[2 bits] of FIPS 202, or a prefix of them; what they refuse |
| `EmitterProtocol.PrunedIndex` | src/plugin/emitter_plugin.cpp:144-145 | the removal loop removes exactly the events up to emitted_id |
| `EmitterProtocol.PruningDropsEmitted` | src/plugin/emitter_plugin.cpp:144-145 | an event that the removal loop takes has been emitted |
| `EmitterProtocol.StepKeepsInv` | src/plugin/emitter_plugin.cpp:136-216 | every step of producer, consumer, quit, crash and restart keeps the invariant on index, counters, queue and permits |
| `EmitterProtocol.RunKeepsInv` | src/plugin/emitter_plugin.cpp:136-312 | it holds in every state of every run |
| `EmitterProtocol.BoundsHold` | src/plugin/emitter_plugin.cpp:136-312 | free permits plus unemitted events never exceed 30000, nor does the index, and front is never called on an empty queue |
| `EmitterProtocol.OnlyEmittedEventsLeave` | src/plugin/emitter_plugin.cpp:144-145 | every event ever stashed is in the index, or an earlier step of the run emitted it successfully |
| `EmitterProtocol.EmittedInHistory` | src/plugin/emitter_plugin.cpp:201-210 | what counts as emitted was emitted by a step of the run |
| `EmitterProtocol.LifeInOrder` | src/plugin/emitter_plugin.cpp:171-213 | a process life emits consecutive, increasing pids |
| `EmitterProtocol.LifeStartsAtOldest` | src/plugin/emitter_plugin.cpp:299-312 | it starts from the smallest pid that the index still holds |
| `EmitterProtocol.PidsNeverReused` | src/plugin/emitter_plugin.cpp:147-151 | a new pid is larger than every pid ever stashed, over all crashes |
| `EmitterProtocol.IndexNeverEmptyAgain` | src/plugin/emitter_plugin.cpp:144-151 | after the first stash the index is never empty |
| `EmitterProtocol.PendingEventsAreOnTheWay` | src/plugin/emitter_plugin.cpp:136-216 | while the process runs, an event not yet emitted is in the queue, with the consumer, or just being queued |
| `EmitterProtocol.NoDeadlock` | src/plugin/emitter_plugin.cpp:136-216 | while events are unemitted or no slot is free, some step of producer or consumer is possible, unless the process is quitting |
| `Emitter.EmitterPlugin.RemoveEmitted` | src/plugin/emitter_plugin.cpp:144-145 | the loop leaves the index from the first event past emitted_id on |
| `Emitter.EmitterPlugin.PruneAndCreateEvent` | src/plugin/emitter_plugin.cpp:140-151 | only events up to emitted_id leave the index, and the admitted one joins it under the next pid: exactly that step of the protocol |
| `Emitter.EmitterPlugin.StashData` | src/plugin/emitter_plugin.cpp:136-158 | from every state a run reaches, wherever the consumer stands: what leaves the index has been emitted, the new event is stored, queued and announced under the next pid, one slot is used, and the result is a state that runs reach |
| `Emitter.EmitterPlugin.PopEvent` | src/plugin/emitter_plugin.cpp:171-174 | what is popped is the event after emitted_id, from a queue that is never empty here, and the index still holds it |
| `Emitter.EmitterPlugin.HandleEvent` | src/plugin/emitter_plugin.cpp:162-213 | one round, wherever the producer stands: on success emitted_id moves to the next pid and a slot is given back; on failure the consumer stops with the event still in the index, emitted_id below it and no slot given back |
| `Emitter.EmitterPlugin.HandleEvents` | src/plugin/emitter_plugin.cpp:160-216 | the loop emits exactly the queued events before the first failure, in their order, and gives back one slot for each |
| `Emitter.EmitterPlugin.QueueIndex` | src/plugin/emitter_plugin.cpp:304-308 | the loop queues the whole index in order and posts once for each event |
| `Emitter.EmitterPlugin.LoadState` | src/plugin/emitter_plugin.cpp:295-312 | permits, counters and queue after a restart, for an empty and a non-empty index |
| `Emitter.EmitterPlugin.PluginInitialize` | src/plugin/emitter_plugin.cpp:283-312 | whatever a crash left behind: everything in the index is queued, the permits of both semaphores make up 30000, and the counters continue from the index |
| `EpochProtocol.WordIsModulo` | src/cross/plugin/cross_plugin.cpp:785-857 | the sums and differences of epochs are those of 64-bit words, modulo 2^64 |
| `EpochProtocol.RunKeepsBounds` | src/cross/plugin/cross_plugin.cpp:833-861 | in every run there are at most five caches and everything is a 64-bit word |
| `EpochProtocol.AppendSize` | src/cross/plugin/cross_plugin.cpp:853-858 | an append adds the new cache at the end; with fewer than five before it all stay, with five exactly the oldest goes and lower_epoch moves on by one |
| `EpochProtocol.SizeIsAppends` | src/cross/plugin/cross_plugin.cpp:853-858 | in every run, with any number of generators, there are as many caches as were appended, up to five |
| `EpochProtocol.StepMovesUpper` | src/cross/plugin/cross_plugin.cpp:833-861 | a step moves lower_epoch plus the number of caches on by what it appends if and only if it does not wrap; when it wraps can be told before the step |
| `EpochProtocol.UpperGrows` | src/cross/plugin/cross_plugin.cpp:848-858 | in every run, with any number of generators, the end of the window never moves back while nothing wraps, and grows with every append |
| `EpochProtocol.StepFitsExactly` | src/cross/plugin/cross_plugin.cpp:833-861 | a step keeps entry k the cache of epoch lower_epoch + k if and only if an append adds the cache of the epoch that is next when the lock is held again, and a window starting at 0 is not moved under its caches |
| `EpochProtocol.WindowRightExactly` | src/cross/plugin/cross_plugin.cpp:833-861 | a run, with any requests and any number of generators, has the right window throughout if and only if each step fits in that sense |
| `EpochProtocol.InPlaceFits` | src/cross/plugin/cross_plugin.cpp:852-854 | for caches that differ between epochs the test is: the epoch computed is still the next one, and the window is not set while it holds caches from 0, unless for epoch 4 |
| `EpochProtocol.LookupIsRight` | src/cross/plugin/cross_plugin.cpp:574-582 | a right window answers every lookup with the cache of that epoch, and only a right one does, unless it wraps |
| `EpochProtocol.LookupsRightExactly` | src/cross/plugin/cross_plugin.cpp:574-582 | all lookups of a run are right if and only if every step passes that test |
| `EpochProtocol.StepKeepsInv` | src/cross/plugin/cross_plugin.cpp:833-861 | with one generator and targets from 5 on every step passes it, and a generator that computes is computing the next epoch |
| `EpochProtocol.SoleGeneratorIsRight` | src/cross/plugin/cross_plugin.cpp:833-861 | so in such runs every lookup of every state is right |
| `EpochProtocol.LastFiveAnswered` | src/cross/plugin/cross_plugin.cpp:853-858 | in such runs the epochs of the last five appends are all answered, each with its cache |
| `EpochProtocol.FlagExcludesSecond` | src/cross/plugin/cross_plugin.cpp:836-840 | in every run without direct calls at most one generator is live |
| `EpochProtocol.AppendsBounded` | src/cross/plugin/cross_plugin.cpp:848-858 | however requests interleave with it, a sole generator that still computes has made no more appends than its target allows |
| `EpochProtocol.GeneratorEnds` | src/cross/plugin/cross_plugin.cpp:848-860 | a sole generator ends exactly when the window reaches past its target, and each append makes the next epoch available |
| `EpochProtocol.RequestsLeaveGeneratorAlone` | src/cross/plugin/cross_plugin.cpp:834-840 | a request for any epoch changes nothing while a flagged generator computes |
| `EpochProtocol.OverlappingGeneratorsBreakWindow` | src/cross/plugin/cross_plugin.cpp:301-307 | a reachable state, after a direct call beside the generator of a request, in which a lookup of epoch 6 returns the cache of epoch 5 |
| `EpochProtocol.WindowFromZeroIsMoved` | src/cross/plugin/cross_plugin.cpp:834-835 | a reachable state, after requests for epochs 4 and 5, in which a lookup of epoch 1 returns the cache of epoch 0 |
| `EpochProtocol.FirstRequestStarts` | src/cross/plugin/cross_plugin.cpp:834-840 | a first request starts a generator if and only if it is for an epoch from 4 on |
| `EpochProtocol.SmallRequestDisables` | src/cross/plugin/cross_plugin.cpp:834-840 | after a first request for an epoch below 4 no cache is ever computed and every lookup fails, whatever is requested or called later |
| `EpochWindow.EpochCaches.StartEpoch` | src/cross/plugin/cross_plugin.cpp:833-840 | for every epoch: a generator is started exactly when none is flagged and the window, once set, does not reach past the epoch; an unset window is set to epoch - 4, in 64 bits |
| `EpochWindow.EpochCaches.EnterGenerator` | src/cross/plugin/cross_plugin.cpp:845-850 | refines the step Enter: the first locked stretch, up to the first cache to compute or the end |
| `EpochWindow.EpochCaches.AppendCache` | src/cross/plugin/cross_plugin.cpp:853-860 | refines the step Append: the computed cache joins the window at its end, five stay at most and as many as there are below that, and the loop condition is decided under the same lock |
| `EpochWindow.EpochCaches.GenerateEpoch` | src/cross/plugin/cross_plugin.cpp:843-861 | an undisturbed run for a target ends with a correct window that reaches past the target and answers every epoch from target - 4 to target that it ever covered, which for a window not set before is all five |
| `TmpAlloc.RoundUp` | vender/gmp/gmp-impl.h:354-362 | the least multiple of the alignment at or above n |
| `TmpAlloc.Growth` | vender/gmp/tal-notreent.c:80-81 | one and a half times the total, rounded up, always leaves room for the request, aligned |
| `TmpAlloc.GrowthWraps` | vender/gmp/tal-notreent.c:80 | where tripling the total wraps, the new total does not cover the request |
| `TmpAlloc.BlocksDisjoint` | vender/gmp/tal-notreent.c:56-103 | two live blocks never overlap |
| `TmpAlloc.WithChunkGood` | vender/gmp/tal-notreent.c:91-96 | opening a chunk in free memory keeps chunks apart and blocks in their chunks |
| `TmpAlloc.WithBlockGood` | vender/gmp/tal-notreent.c:99-101 | taking a block from the top chunk keeps all blocks aligned, inside their chunks and apart |
| `TmpAlloc.MarkCutsBack` | vender/gmp/tal-notreent.c:105-129 | an older mark is a stage that a newer one, and the present, can be cut back to |
| `TmpAlloc.MarksBelow` | vender/gmp/tal-notreent.c:116-129 | the marks below one that is freed stay valid |
| `TmpAlloc.TmpStack.constructor` | vender/gmp/tal-notreent.c:44-48 | the initial chunk has no room and nothing is allocated |
| `TmpAlloc.TmpStack.SizeChunk` | vender/gmp/tal-notreent.c:75-89 | in word arithmetic, for every size: the chunk fits the request and its header and the total accounts for it if and only if neither the sum nor its triple wraps; then the total is the maximum, which grows only beyond itself, to one and a half times the sum up to the alignment |
| `TmpAlloc.TmpStack.OpenChunk` | vender/gmp/tal-notreent.c:75-96 | a new chunk is linked on top, with room for the request, and the totals stay the sum of the payloads |
| `TmpAlloc.TmpStack.Alloc` | vender/gmp/tal-notreent.c:56-103 | where nothing wraps, the new block is aligned and added to the live ones, and every block, chunk and mark from before is kept |
| `TmpAlloc.TmpStack.AllocOverflowing` | vender/gmp/tal-notreent.c:56-103 | where something wraps, the block runs past its chunk or the total stops being the sum of the payloads |
| `TmpAlloc.TmpStack.Mark` | vender/gmp/tal-notreent.c:108-113 | the mark records the present chunk and allocation point and changes nothing else |
| `TmpAlloc.TmpStack.PopChunks` | vender/gmp/tal-notreent.c:119-127 | exactly the chunks above the mark are popped and the total is again the sum of the payloads |
| `TmpAlloc.TmpStack.Free` | vender/gmp/tal-notreent.c:116-129 | chunk stack, allocation point and live blocks are those of the mark, and the maximum is kept |

## Left out

- NextPrime.PrimeSieve.Next: proved for primes up to the point where (sqrt_s0 + 1)^2 or s0 would wrap in 64 bits; beyond it the source's arithmetic wraps.
- SegmentedSieve.GmpPrimesieve: indices are not bounded by `mp_size_t`; the array that would make them wrap does not fit into an address space.
- SievePattern.FillBitpattern: the branch for 64-bit limbs; the one for 32-bit limbs and the empty one are not modelled.
- InfInts.InfInt.Times: only for vectors of fewer than 2^31 limbs together, because the source casts lengths to int; `IntSqrt`, `FromString`, `Reparsed` and `Difficulty.MeetsDifficulty` carry the same kind of bound.
- InfInts.InfInt.TimesDigit: not for the least int, whose negation is undefined in C++.
- InfInts.InfInt.TimesAssignDigit: the same.
- InfInts.InfInt.FromString: malformed strings, which the source reports on an error stream; a numeral here is an optional minus and at least one digit.
- InfInts.InfInt.DividedBy: the exception, or the message on the error stream, for a zero divisor; the value returned without exceptions is modelled.
- BaseConverters.BaseConverter.Convert: source alphabets with one character or repeated characters; over such a target some numbers have no text (`Alphabets.WritesEveryNumber`), and more than 256 distinct characters do not exist.
- BaseConverters.Base2Dec: an unsigned int has 32 bits; the conversion of a length to int in `find` is not modelled.
- Sponge.Permute: a little-endian machine, on which the source's words have their octets in this order.
- Sponge.Hash: rate 0, for which the loop of the source never ends, and the final clearing of the local state.
- RlpEncoder.EncodeArg: lengths below 2^64, and a template whose branches for strings and hashes are the string encoder.
- EmitterProtocol.StepKeepsInv: pids are unbounded integers and event payloads opaque; removing and creating events is one database step, one thread calls `stash_data`, and undoing the index on a chain fork is not modelled.
- Emitter.EmitterPlugin.RemoveEmitted: the source advances an iterator from the element it has just removed; that use of an invalidated iterator is not modelled, the head of the index is taken again.
- Emitter.EmitterPlugin.StashData: waiting for a permit is a precondition, and the other thread stands still during one call of the method; that it may move between the stretches is what the runs of the protocol cover. The same holds for `HandleEvent`.
- EpochProtocol.SoleGeneratorIsRight: a sufficient discipline for callers; the exact condition is `WindowRightExactly`.
- EpochWindow.EpochCaches.GenerateEpoch: the computation of a cache is an arbitrary function of the epoch; its scaling by BLOCKS_PER_EPOCH, its failure, and the lifetime of a cache after the lock is released are not modelled.
- TmpAlloc.TmpStack.Alloc: memory is a map from addresses to headers, and the address of a new chunk comes from outside as any free range; a request that overflows is `AllocOverflowing`.
- TmpAlloc.TmpStack.OpenChunk: the same.
- `InfInt` constructors and conversions for other integer widths, `>=`, `!=`, `/=`, `%=`, `digitAt`, stream input: mirrors of what is modelled, or narrowing conversions.
- `Convert` with a minimal number of digits, `FromDecimal`, `ToDecimal`: padding around the modelled functions.
- The database row that `start_epoch` writes, and `get_db_epoch`: input and output.
- The ethash mix (`hashimoto`, its lookup and cache generation), transaction signing, BLS calls, HTTP endpoints, timers.
- The V8 and fibjs bindings, option loading, and the conversion of events into JavaScript objects.
- The FFT, Toom and GCD declarations of `gmp-impl.h`, per-processor assembly in `longlong.h`, `gmpxx.h`, `datasize.h`.
- `gen-fac.c`, `gen-bases.c`, `gen-psqr.c`, `gen-jacobitab.c`, `tal-debug.c`, `tal-reent.c`, `memory.c`: other generators and allocators.
