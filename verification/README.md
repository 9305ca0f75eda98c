# Verified core of the built-in C library

A Dafny model of the five hard algorithms in `libs/compatible`: printing doubles (`dtoa.c`,
`dmisc.c`, `gdtoa.c`, `gmisc.c`), Payne-Hanek argument reduction (`__rem_pio2_large.c`), `fmod`,
`iconv`, and the output side of stdio (`fvwrite.c`, `fflush.c`). `dafny verify dfyconfig.toml`
checks everything.

**Printing doubles.** Two layers. `Bigints` and `BigintBits` are arrays of 32-bit words with carry
and borrow, proved against naturals; `Bignums` runs the word-level `quorem` for each digit of the
upper layer. `Scaling` is the set-up, `DigitLoops` and `ShortestLoop` are the digit loops,
`SmallIntegers` is the path for integers below 10^15, `Dtoa` puts them together, `DtoaUnique`
shows that the result is determined, `DtoaExamples` has the example of the comment, and `Gdtoa` is about the fixed digits of gdtoa in each rounding
direction. `Doubles` and
`Decimals` give the meaning independently of the algorithm: a decimal m * 10^q is compared exactly
with the doubles and their midpoints, and `ReadsBack` says "nearest, ties to even" by quantifying
over all doubles. The configuration is the active one: IEEE, `Pack_32` with `ULLong`, without
`ROUND_BIASED` and `Honor_FLT_ROUNDS`. The main results:

- `Dtoa.Convert`, for every finite positive double and in every mode: modes 0 and 1 give a decimal in
  the rounding interval, no decimal in the interval has fewer digits, and of those with digits to the
  same place it is the nearest, the even one in a tie. Modes 2 and 3 give the digits of the nearest
  multiple of the place asked for, ties to even. Modes 4 and 5 give the shortest digits if they end in
  time, and the rounded ones only if no decimal of that many digits is read back. When trailing zeros
  are suppressed is said exactly, see 1. All this is said of dtoa without its floating-point quick
  path: it holds in modes 0, 1 and 6 to 9, and in modes 2 to 5 when that path is not tried or gives up.
- `DtoaUnique.Determined`: these promises leave nothing open. Digits and decimal point position are
  determined by the double, the mode and ndigits.
- `Doubles.IntervalIsReadsBack` and `Dtoa.ModeZeroRoundTrip`: the interval is exactly the set of
  decimals read back as that double, so mode 0 prints the shortest string that yields it; distinct
  doubles print differently (`Dtoa.DistinctDoublesPrintApart`).
- `Bigints.Quorem` is exact for any number of words. It needs only that the top word of the divisor
  is at least 10 and not all ones; the set-up puts it in [2^27, 2^28).

Four things the proofs bring out; where code and comments part, the model follows the code:

1. The comment says trailing zeros are suppressed. The small-integer path leaves them when it stops
   at the digit limit without rounding up and the last digit is a zero. `Dtoa.Convert` states that a
   result ends in a zero exactly in the calls `ZerosLeft`: an integer below 10^15 to a number of
   digits for which its quotient meets the condition `LeavesZeros`. That is so in modes 6 to 9, and in
   modes 2 to 5 when the quick path is not tried or gives up; when it succeeds it strips the zeros, as
   for 1004 to two digits. `Dtoa.TrailingZeroExample` is 1005 to three digits in mode 2, "100": the
   quick path meets a tie there and gives up.
2. The shortest loop can pass over a nearer candidate in exactly one situation, `NineTie`: the first
   digit is a nine and the number plus its upper half-gap is exactly the next power of ten.
   `DtoaBridge.NoNineTie` shows that no double is in that situation.
3. `cmp` takes a zero without words for smaller than a zero with one word, and nothing else goes wrong
   (`Bigints.Cmp`). The shortest loop meets this when a remainder and a difference are both zero; the
   model of its test includes it, and what dtoa promises holds all the same.
4. The comment speaks of integers less than 1e16 in floating point; the code stops at 10^15
   (`Int_max` is 14).

**Argument reduction.** The doubles of the source hold integers below 2^53 or dyadic fractions up to
the recomputation test, so the model works on integers. `RemPio2.Reduce` shows that n plus or minus
the remaining fraction, at most one half, is congruent modulo 8 to the product with the table,
including the terms that the choice of `jv` skips; `RemPio2Product.ReducesNumbers` says the same of
the product of the two numbers themselves, with a bound on the part of the table that was not used.

**fmod.** `Fmod.Remainder` works on bit patterns for any exponent and fraction width and returns
exactly |x| mod |y| with the sign of x.

**iconv.** `IconvLoop` is the conversion loop for any decoder and encoder: its run, resuming it, and
reading back what was written. `Iconv` supplies the charsets and the descriptor, `IconvTables` and
`IconvLegacy` the table searches, `IconvLaws` the laws, `IconvForms` what each decoder reads and rejects. Big tables are parameters; assumed of them
are their dimensions, that the reverse JIS table lists positions in strictly increasing order of code
point, that the GB18030 entries are distinct (for the rank theorem only), and that codepage entries
index the shared character list. One quirk is kept: the escape switch of ISO-2022-JP adds 128 for `$`
to a whole byte, so that ESC ( followed by 0xC0 or 0xC2 shifts as ESC $ @ and ESC $ B do.

**Stdio output.** `Stdio.Sink` accepts any part of what it is given, by an arbitrary policy. Writing
conserves the stream: what the sink and the buffer hold is what was written, for every way of
splitting the data into regions. A write fails exactly when a call of the sink accepts nothing, and the
sink then holds a prefix of the stream.

## Model

| member | source | states |
|---|---|---|
| Bigints.Cmp | libs/compatible/misc.c:511-543 | The sign of the result is the order of the two values, except exactly for zeros of different lengths, where the shorter is taken for the smaller |
| Bigints.SubWord | libs/compatible/dmisc.c:146-152 | One word of b - q*S with 64-bit wrap-around: the word plus carry and borrow in the next place is the exact difference |
| Bigints.SubInvStep | libs/compatible/dmisc.c:144-173 | Carry and borrow together are what the words done so far still owe to the next word |
| Bigints.MulSub | libs/compatible/dmisc.c:141-173 | Over n words the array becomes the old value minus q*S when that is not negative; higher words stay |
| Bigints.Trim | libs/compatible/dmisc.c:174-179 | Dropping zero words keeps the value and leaves the number normalised |
| Bigints.EstimateBounds | libs/compatible/dmisc.c:136-139 | The one-word quotient is never too big, at most one too small, and at most 9 |
| Bigints.QuotientEstimate | libs/compatible/dmisc.c:130-140 | The same of the arrays: q*S <= b < (q+2)*S |
| Bigints.SubtractOnce | libs/compatible/dmisc.c:181-224 | After the second subtraction the remainder is below S and at most one was added |
| Bigints.Quorem | libs/compatible/dmisc.c:125-226 | Returns floor(b/S), leaves b mod S, normalised, for every word length; a zero remainder has no word if S has one, else one |
| Bignums.QuoremValue | libs/compatible/dmisc.c:125-226 | With an aligned divisor the precondition of quorem holds and b = q*S + r, r < S, q <= 9 |
| BigintBits.Trailz | libs/compatible/gmisc.c:64-80 | The value is an odd number shifted left by the result |
| BigintBits.ShiftJoin | libs/compatible/gmisc.c:50-51 | Joining a word with the low bits of the next one loses no bit |
| BigintBits.RshiftBits | libs/compatible/gmisc.c:46-55 | The shifting loop divides by 2^s in place; no zero word is left on top |
| BigintBits.Rshift | libs/compatible/gmisc.c:35-62 | Shifts in place by any k: the value is divided by 2^k, normalised; zero has no words, but for a zero word shifted by nothing |
| BigintBits.Bitstob | libs/compatible/gdtoa.c:52-91 | The value of the bit array, normalised, and its length in bits |
| BigintBits.OddMantissa | libs/compatible/gdtoa.c:200-208 | bitstob, trailz and rshift together keep b*2^be and be+bbits and leave b odd, or zero without words |
| DigitStrings.NormalUnique | libs/compatible/dtoa.c:774-789 | Digits without zeros at the ends and their exponent are determined by the value |
| DigitStrings.RoundUp | libs/compatible/dtoa.c:774-782 | Carry ripple adds one in the last place; all nines give "1" with the exponent raised, and only they do |
| DigitStrings.TrimZeros | libs/compatible/dtoa.c:783-789 | Zero chopping keeps the value and leaves no trailing zero |
| DigitLoops.DigitStep | libs/compatible/dtoa.c:748-761 | value = digits*S + remainder is kept by each digit, and the first digit is not zero |
| DigitLoops.RoundedExact | libs/compatible/dtoa.c:750-755 | Stopping early on a zero remainder is rounding at any later digit |
| DigitLoops.Finish | libs/compatible/gdtoa.c:781-809 | The tail rounds the quotient to nearest, down or up as asked, then ripples or chops |
| DigitLoops.FixedDigits | libs/compatible/dtoa.c:747-789 | The round-half-even decimal at ilim digits, no zero at either end, all nines carry to "1" |
| DigitLoops.DirectedDigits | libs/compatible/gdtoa.c:771-809 | Floor for rdir = 2, ceiling for rdir = 1, half-even for rdir = 0 at ilim digits |
| Gdtoa.RoundedIsDirected | libs/compatible/gdtoa.c:783-802 | The rounded quotient is the floor, ceiling or nearest multiple of the last place of the magnitude that b and S stand for |
| Gdtoa.DirectedUnique | libs/compatible/gdtoa.c:783-802 | There is one such multiple in each direction |
| Gdtoa.DigitsDirected | libs/compatible/gdtoa.c:771-809 | The digits denote the magnitude rounded in the direction rdir at the requested digit |
| Gdtoa.SameDigits | libs/compatible/gdtoa.c:771-809 | String and exponent depend on the magnitude only, whatever b and S; rounded to nearest they are dtoa's |
| ShortestLoop.FitsIff | libs/compatible/dtoa.c:655-659 | The two comparisons decide whether the digits so far, or those plus one, lie in the interval |
| ShortestLoop.NoneFits | libs/compatible/dtoa.c:655-726 | When both tests fail no multiple of the current place lies in the interval |
| ShortestLoop.Decide | libs/compatible/dtoa.c:655-722 | It stops exactly when a candidate fits, on one that fits, the nearer one but for a nine at the upper end, the even one in a tie but for both ends |
| ShortestLoop.LastDigitSafe | libs/compatible/dtoa.c:715-719 | After the first digit a nine is never raised and a final zero never accepted |
| ShortestLoop.NineTieOnlyFirst | libs/compatible/dtoa.c:656-677 | The choice of a farther candidate happens exactly in the situation NineTie |
| ShortestLoop.StopTie | libs/compatible/dtoa.c:697-705 | A tie is broken to the even candidate unless both ends of the interval are the candidates |
| ShortestLoop.ShortestDigits | libs/compatible/dtoa.c:628-746 | Terminates; a stop after n digits fits, nothing fits with fewer, it is nearest iff not NineTie, even in a tie; else rounded at ilim |
| ShortestLoop.LastDigit | libs/compatible/dtoa.c:706-722 | Every exit stores digits without zeros at the ends that denote the chosen candidate |
| Doubles.GapUp | libs/compatible/dtoa.c:490-513 | No double lies within two upper half-gaps above a double |
| Doubles.GapDown | libs/compatible/dtoa.c:546-564 | Nor within two lower half-gaps below, powers of two and denormals included |
| Doubles.IntervalIsReadsBack | libs/compatible/dtoa.c:48-53 | Midpoints included for an even mantissa, the interval is exactly the decimals that round to the double |
| Doubles.EvenMantissa | libs/compatible/dtoa.c:662 | The parity the code tests on the last word is that of the mantissa |
| Scaling.D2b | libs/compatible/misc.c:714-800 | The odd part of the mantissa, its exponent and its length in bits |
| Scaling.CorrectEstimate | libs/compatible/dtoa.c:256-265 | An estimate that is right or one too big is right afterwards, or still marked for checking |
| Scaling.Distribute | libs/compatible/dtoa.c:266-284 | The exponents of b, S and the half-gaps stand in the right proportion, denormals and powers of two included |
| Scaling.AlignShift | libs/compatible/dtoa.c:573-591 | The bit length of the shifted divisor is 28 modulo 32 |
| Scaling.Align | libs/compatible/dtoa.c:566-591 | The shifted divisor meets quorem's precondition |
| Scaling.RatioOrder | libs/compatible/dtoa.c:490-601 | Comparing multiples of S with scaled numerators compares decimals with the magnitudes they stand for |
| Scaling.CheckEstimate | libs/compatible/dtoa.c:602-615 | The exponent is corrected and the numerators still stand for the same magnitudes |
| Scaling.ScaleSetup | libs/compatible/dtoa.c:490-648 | b/S = d/10^k with 1 <= b/S < 10, mlo/S and mhi/S are the exact half-gaps, S is aligned |
| DtoaBridge.FitsIsInterval | libs/compatible/dtoa.c:635-659 | A candidate fits the loop exactly when the decimal lies in the rounding interval of the double |
| DtoaBridge.LoopNoShorter | libs/compatible/dtoa.c:650-746 | Nothing fitting below n digits means no decimal at any exponent with fewer digits is in the interval |
| DtoaBridge.LoopNearest | libs/compatible/dtoa.c:697-722 | The chosen candidate is the nearest decimal of the double at that place, the even one in a tie |
| DtoaBridge.LoopIsShortest | libs/compatible/dtoa.c:650-746 | A stop of the loop is the shortest and nearest decimal of the double |
| DtoaBridge.NoNineTie | libs/compatible/dtoa.c:662-668 | No finite double meets NineTie |
| DtoaBridge.NoEndTie | libs/compatible/dtoa.c:662-677 | No finite double has both ends of its interval as nearest candidates, so ties always go to even |
| DtoaBridge.RoundedIsNearest | libs/compatible/dtoa.c:771-773 | The rounded quotient is the multiple of the last place nearest to the double, ties to even |
| SmallIntegers.SmallDigits | libs/compatible/dtoa.c:448-487 | Exact digits without a limit; else the half-even decimal at ilim, without trailing zeros iff not LeavesZeros |
| SmallIntegers.ExactInDoubles | libs/compatible/dtoa.c:448-450 | Doubles compute the loop exactly: values below 2^53, and no quotient is close enough to the next integer to be rounded up |
| SmallIntegers.IntegerNoShorter | libs/compatible/dtoa.c:465-485 | An integer cut off at the digit limit has no decimal of that many digits in its rounding interval |
| SmallIntegers.ExactIsShortest | libs/compatible/dtoa.c:437-488 | For an integer below 2^53 the exact digits are the shortest decimal |
| Dtoa.Limits | libs/compatible/dtoa.c:300-325 | The digit count for the place each mode asks for, for k and for k - 1 |
| Dtoa.FewDigits | libs/compatible/dtoa.c:616-627 | At or above the leading digit the correctly rounded value is 0, as "0" with position 1, or 1 in that place |
| Dtoa.SmallPath | libs/compatible/dtoa.c:437-488 | The small-integer path keeps the promise of every mode, and ends in a zero exactly in the calls ZerosLeft, then with all the digits wanted |
| Dtoa.CutPromise | libs/compatible/dtoa.c:726-773 | Modes 4 and 5 round only when no decimal of that many digits is read back as d |
| Dtoa.BignumPath | libs/compatible/dtoa.c:490-789 | The bignum path keeps the promise of every mode, with the corrected exponent and no trailing zero |
| Dtoa.NotSmall | libs/compatible/dtoa.c:439 | The calls ZerosLeft all take the small-integer path |
| Dtoa.LeadingExists | libs/compatible/dtoa.c:214-234 | Every finite double has a leading exponent |
| Dtoa.LeadingUnique | libs/compatible/dtoa.c:214-234 | And only one |
| Dtoa.Convert | libs/compatible/dtoa.c:91-119 | For the caller's mode, 6 to 9 meaning 2 to 5 and others outside 0 to 9 meaning 0, the promise is kept: shortest, correctly rounded at the place asked for, or shorter and read back; digits in range, no leading zero, trailing zeros exactly in the calls ZerosLeft |
| Dtoa.ZerosTrail | libs/compatible/dtoa.c:437-488 | Where the quick path does not answer, a result ends in a zero exactly in the calls ZerosLeft, apart from the string "0" |
| DtoaUnique.NearestEvenUnique | libs/compatible/dtoa.c:697-705 | One decimal at a place is nearest and even in a tie |
| DtoaUnique.ShortestUnique | libs/compatible/dtoa.c:98-102 | The promise of modes 0 and 1 is met by one string and position only |
| DtoaUnique.RoundedUnique | libs/compatible/dtoa.c:103-109 | So is that of modes 2 and 3 |
| DtoaUnique.Determined | libs/compatible/dtoa.c:91-119 | In every mode the string and the position are determined by the double, the mode and ndigits |
| Dtoa.TrailingZeroExample | libs/compatible/dtoa.c:465-485 | The double 1005 to three digits in mode 2 is such a call |
| Dtoa.ModeZeroRoundTrip | libs/compatible/dtoa.c:98-99 | Mode 0 output reads back as d and no decimal with fewer digits does |
| DtoaExamples.ModeTwo | libs/compatible/dtoa.c:103-105 | Mode 2 rounds to max(1, ndigits) significant digits |
| DtoaExamples.ModeThree | libs/compatible/dtoa.c:106-109 | Mode 3 rounds through ndigits past the decimal point |
| DtoaExamples.ModesFourAndFive | libs/compatible/dtoa.c:110-112 | Modes 4 and 5 give what 2 and 3 give, or a string that is read back as d |
| DtoaExamples.PrintsPower | libs/compatible/dtoa.c:48-53 | An even double whose upper midpoint is a power of ten prints as that power in mode 0 and not in mode 1 |
| DtoaExamples.OneE23 | libs/compatible/dtoa.c:100-102 | The example of the comment: 1e23 in mode 0, something else in mode 1 |
| Dtoa.DistinctDoublesPrintApart | libs/compatible/dtoa.c:98-102 | Equal output in mode 0 or 1 means equal doubles |
| Dtoa.NearestUnique | libs/compatible/dtoa.c:103-109 | There is one correctly rounded multiple of a power of ten |
| Dtoa.SmallPathRefinesBignum | libs/compatible/dtoa.c:437-488 | Both paths give the same decimal at every digit count; the same string and exponent iff not LeavesZeros |
| RemPio2.Products | libs/compatible/__rem_pio2_large.c:288-298 | q[i] is the coefficient of the product at jv + i and stays below 2^50 |
| RemPio2.Distill | libs/compatible/__rem_pio2_large.c:302-307 | Chunks in [0, 2^24) and the leading part conserve the sum; the casts are exact |
| RemPio2.IntegerPart | libs/compatible/__rem_pio2_large.c:309-321 | For q0 positive, zero and negative: integer part modulo 8 plus fraction is the product; ih is set iff the fraction is at least one half |
| RemPio2.ComplementChunks | libs/compatible/__rem_pio2_large.c:325-334 | The chunks become 2^(24 jz) minus their value, unless all are zero |
| RemPio2.MaskTop | libs/compatible/__rem_pio2_large.c:335-342 | Masking the leading chunk turns the complement to 2^(24 jz) into the one to 2^(24 jz - q0); chunks stay in range |
| RemPio2.Complement | libs/compatible/__rem_pio2_large.c:323-348 | In place, the fraction F becomes exactly 1 - F, in chunks of 24 bits |
| RemPio2.NearestInteger | libs/compatible/__rem_pio2_large.c:309-348 | n + F or n - F is the product modulo 8, with 0 <= F <= 1/2 and chunks of 24 bits |
| RemPio2.SkippedAreMultiples | libs/compatible/__rem_pio2_large.c:283-286 | The coefficients before jv contribute a multiple of 8 |
| RemPio2.Reduce | libs/compatible/__rem_pio2_large.c:279-348 | The first pass is congruent modulo 8 to the whole product through coefficient jv + jk |
| RemPio2Product.ProductIs | libs/compatible/__rem_pio2_large.c:293-298 | All coefficients together are x times the table, as numbers |
| RemPio2Product.ProductCut | libs/compatible/__rem_pio2_large.c:293-300 | Stopping at a coefficient drops only the coefficients below it |
| RemPio2Product.TailBound | libs/compatible/__rem_pio2_large.c:293-300 | Those amount to less than 3 * 2^24 units of the last coefficient kept |
| RemPio2Product.ReducesNumbers | libs/compatible/__rem_pio2_large.c:279-348 | x times the table, as numbers, is n plus or minus F modulo 8 plus a rest of less than 3 * 2^24 units of the last coefficient |
| Fmod.Normalise | libs/compatible/fmod.c:24-38 | Mantissa with its implicit bit and exponent, worth exactly the magnitude, subnormals included |
| Fmod.WordSub | libs/compatible/fmod.c:42-43 | The top bit of the wrapped difference tells which operand is larger |
| Fmod.Divide | libs/compatible/fmod.c:40-55 | The long division leaves the remainder modulo y, below y |
| Fmod.Renormalise | libs/compatible/fmod.c:56 | The implicit bit is restored without changing the value |
| Fmod.Pack | libs/compatible/fmod.c:58-64 | The result fields have the value; the shift for a subnormal drops no set bit |
| Fmod.MagnitudeMono | libs/compatible/fmod.c:18-22 | Comparing patterns compares magnitudes |
| Fmod.RepresentsOne | libs/compatible/fmod.c:6-10 | A word has one sign and one pair of fields |
| Fmod.Remainder | libs/compatible/fmod.c:4-131 | Sign of x, magnitude that of x modulo that of y, exactly; x itself for infinite y; NaN exactly for zero or NaN y or x not finite |
| IconvTables.CountWindow | libs/compatible/iconv.c:426-430 | The nested loops count the table entries in the window |
| IconvTables.SelectLoop | libs/compatible/iconv.c:424-433 | The widening loop terminates at its fixed point |
| IconvTables.SelectRank | libs/compatible/iconv.c:424-433 | The fixed point is the index-th natural not in the table |
| IconvTables.SelectOnto | libs/compatible/iconv.c:424-433 | Every natural not in the table is selected by its rank |
| IconvTables.SelectMono | libs/compatible/iconv.c:424-433 | Selection is strictly monotone in the index |
| IconvTables.UniToJis | libs/compatible/iconv.c:208-225 | The binary search returns the position of c in the table, or 0 exactly when it is absent |
| IconvLegacy.ExtractIsField | libs/compatible/iconv.c:200-206 | The two shifted bytes are the x-th 10-bit field of the packed table |
| IconvLegacy.PackThenExtract | libs/compatible/iconv.c:200-206 | Reading four entries packed into five bytes gives them back |
| IconvLegacy.PackAllExtract | libs/compatible/iconv.c:200-206 | Reading a packed table of any length gives back every entry |
| IconvLegacy.PageMaps | libs/compatible/iconv.c:200-206 | On the page packed from any characters below 256 or in the shared list, the elided bytes are themselves and the others their characters |
| IconvLegacy.FindByteLoop | libs/compatible/iconv.c:553-558 | The search returns the first byte that maps to c |
| IconvLegacy.ByteFor | libs/compatible/iconv.c:547-560 | A byte that is emitted maps back to the code point, and is the code point itself or the first that does |
| IconvLegacy.ByteForComplete | libs/compatible/iconv.c:547-560 | A byte is found exactly for the characters of the codepage |
| IconvLoop.RunBounds | libs/compatible/iconv.c:249 | A call consumes at most its input and writes at most its space |
| IconvLoop.RunStops | libs/compatible/iconv.c:669-684 | A call ends for the reason it gives: input used up, truncated or illegal where it stands, or no space for the next character |
| IconvLoop.Resumable | libs/compatible/iconv.c:249-690 | However a call stops, going on from there gives what one call would have given |
| IconvLoop.ResumesFromStart | libs/compatible/iconv.c:294-318 | The same when the next call starts from the descriptor's charset again, by the zero-progress step |
| IconvLoop.ReadsText | libs/compatible/iconv.c:249-668 | If every character reads back, a whole text is rewritten in the other encoding |
| IconvLoop.AcceptedIsText | libs/compatible/iconv.c:269-293 | Input accepted by a canonical decoder is the encoding of some text |
| Iconv.TurnProgress | libs/compatible/iconv.c:253-523 | In every modelled charset every turn consumes input or settles the byte order, and stays inside the input |
| Iconv.PrefixTurn | libs/compatible/iconv.c:253-523 | In every modelled charset a decision once taken does not depend on the input that follows |
| Iconv.DecodeChar | libs/compatible/iconv.c:399-439 | The decoder with the selection loop computes the specified turn |
| IconvForms.GbTwoBytes | libs/compatible/iconv.c:399-439 | Every entry of the table is read from its row and column, in GB2312 from 0xa1 on |
| IconvForms.GbFourBytes | libs/compatible/iconv.c:413-434 | The four bytes that count i are read as the character of rank i + 128 outside the table |
| IconvForms.GbFourBytesOnto | libs/compatible/iconv.c:413-434 | Every character outside the table with a rank in range is read from four bytes |
| IconvForms.GbForms | libs/compatible/iconv.c:399-439 | Nothing else is accepted |
| IconvForms.EucForms | libs/compatible/iconv.c:343-359 | For all two bytes what EUC-JP reads from the table, and what it rejects |
| IconvForms.IsoPairs | libs/compatible/iconv.c:382-392 | The same for the two-byte states of ISO-2022-JP |
| IconvForms.IsoSingles | libs/compatible/iconv.c:377-398 | The same for its one-byte states |
| IconvForms.IsoEscapes | libs/compatible/iconv.c:362-376 | The same for its escape sequences |
| IconvForms.AsciiForms | libs/compatible/iconv.c:261-263 | US-ASCII reads the bytes below 128 and no others |
| IconvForms.PageDecodes | libs/compatible/iconv.c:519-523 | A codepage reads every byte as the character it was packed from, and rejects holes |
| IconvForms.UnitForms | libs/compatible/iconv.c:277-293 | For all code units what UCS-2 and UTF-16 read and reject |
| IconvForms.WordForms | libs/compatible/iconv.c:269-276 | UTF-32 reads the scalar values and nothing else |
| Iconv.EncodeChar | libs/compatible/iconv.c:525-668 | The encoder with its searches writes the specified bytes |
| Iconv.Descriptor.Convert | libs/compatible/iconv.c:227-684 | The loop performs the specified call: bytes read and written, substitutions or error, saved state |
| IconvLaws.DescriptorResumes | libs/compatible/iconv.c:249-318 | Stopping and calling again on the same descriptor gives the bytes read and written, the status and the state of one call; the substitutions add up too, though a stopped call returns -1 and does not report its own |
| IconvLaws.SubstitutesIff | libs/compatible/iconv.c:542-633 | A character is substituted exactly when the target charset does not carry it |
| IconvForms.Substitutes | libs/compatible/iconv.c:542-560 | A substituted character is written as an asterisk; UCS-2 writes U+FFFD and does not count it |
| IconvLaws.DecodeUtf16Encoded | libs/compatible/iconv.c:277-293 | A scalar value is decoded back from its UTF-16 code units |
| IconvLaws.Utf16Example | libs/compatible/iconv.c:642-656 | The example of section 5 of RFC 2781 in both byte orders |
| IconvLaws.ByteOrderExample | libs/compatible/iconv.c:634-666 | The bytes of UTF-32 in both orders, and of the targets without a byte order |
| IconvLaws.JapaneseExample | libs/compatible/iconv.c:586-633 | The bytes of katakana, yen, overline and a kanji in EUC-JP and ISO-2022-JP |
| IconvLaws.IsoReadsBack | libs/compatible/iconv.c:599-633 | A character between its escape sequences is read back and leaves the decoder in state 0 |
| IconvLaws.ReadsBack | libs/compatible/iconv.c:525-668 | Every character a charset carries is read back from its encoding |
| IconvLaws.ConvertsText | libs/compatible/iconv.c:249-668 | A text carried by the source charset converts to the same text in the target, counting substitutions |
| IconvLaws.ThereAndBack | libs/compatible/iconv.c:249-668 | A text carried by both charsets comes back byte for byte, in state 0 |
| IconvLaws.MarkedInput | libs/compatible/iconv.c:294-318 | UTF-16, UCS-2 and UTF-32 input behind a mark is read exactly as that byte order reads the rest, which the descriptor notes |
| IconvLaws.MarkDecides | libs/compatible/iconv.c:294-318 | A text behind a mark is read in that byte order, for all three |
| IconvLaws.UnmarkedText | libs/compatible/iconv.c:294-318 | A big-endian text without a mark is read as written unless its first character looks like a mark |
| IconvLaws.LooksMarkedText | libs/compatible/iconv.c:294-318 | If it does, that character is lost, and after U+FFFE the rest is read in the other byte order |
| IconvLaws.AutoTarget | libs/compatible/iconv.c:634-666 | A call to UTF-16, UCS-2 or UTF-32 without a byte order is the call to the big-endian charset |
| IconvLaws.AutoThereAndBack | libs/compatible/iconv.c:634-666 | A text that does not look marked, written to such a target and read from it, comes back |
| IconvLaws.AcceptedUnit | libs/compatible/iconv.c:269-293 | Accepted UTF-32 or UTF-16 units are the encoding of the scalar value read |
| IconvLaws.UnicodeThereAndBack | libs/compatible/iconv.c:269-293 | Whatever bytes UTF-32 or UTF-16 accepts come back unchanged through the other |
| Stdio.Sink.Write | libs/compatible/fflush.c:84-85 | The answer is the policy's, at most what was given; that much is appended, nothing on a refusal |
| Stdio.DrainAccepted | libs/compatible/fflush.c:84-91 | A buffer drains to the end exactly when every call accepts something |
| Stdio.DrainTaken | libs/compatible/fflush.c:84-91 | It has drained exactly when all of it was taken |
| Stdio.DrainTails | libs/compatible/fflush.c:84-91 | Every call is given a tail of the buffer |
| Stdio.LineDistance | libs/compatible/fvwrite.c:187-191 | The length of the first line, or one more than the region without a newline |
| Stdio.NextRegion | libs/compatible/fvwrite.c:90-96 | Empty regions are skipped and nothing else |
| Stdio.File.constructor | libs/compatible/wsetup.c:90-100 | An empty buffer with its space, or its negative count when line buffered |
| Stdio.File.Flush | libs/compatible/fflush.c:56-92 | The sink sees exactly the drain of the buffer; it fails exactly when a call accepts nothing, then with a prefix delivered and the error flag; the buffer is empty |
| Stdio.File.Direct | libs/compatible/fvwrite.c:160-164 | A direct write happens past an empty buffer only, offers one buffer size and appends what was accepted |
| Stdio.File.Turn | libs/compatible/fvwrite.c:145-172 | One turn moves a front part of the region into the stream; the sink is asked for a full buffer, a buffer-sized piece or nothing, as the sizes decide |
| Stdio.File.WriteFull | libs/compatible/fvwrite.c:111-174 | Success conserves the stream and used + _w = size; it fails exactly when a call of the sink accepts nothing, then the sink has a prefix; what stays below the buffer size is not sent; terminates |
| Stdio.File.LineTurn | libs/compatible/fvwrite.c:192-216 | One turn never passes a newline, and hands the line over with what is held when it reaches one |
| Stdio.File.WriteLines | libs/compatible/fvwrite.c:175-218 | As WriteFull, and every newline of the stream has reached the sink, for any split into regions; without a newline what stays below the buffer size is not sent |
| Stdio.File.WriteString | libs/compatible/fvwrite.c:145-152 | The buffer holds the whole output cut at its size |

## Left out

- Dtoa.Convert: the floating-point quick path (dtoa.c lines 335-435) and the logarithm estimate are not modelled, because they need a rounding-error model; the estimate is a parameter that is the right exponent or one more, and the digits are those of a call for which the quick path is not taken or gives up.
- Dtoa.ZerosTrail: calls that the quick path answers are not covered; it strips trailing zeros.
- Dtoa.Convert: zero, infinities, NaN and the sign (dtoa.c lines 152-182) are fixed strings.
- DigitLoops.FixedDigits and ShortestLoop.ShortestDigits: digit buffers are sequences and the bignums of the loops are naturals; in-place update is modelled in quorem, rshift and bitstob only. The bignum calls other than quorem and cmp (mult, multadd, lshift, pow5mult, diff) are their arithmetic meaning.
- DigitLoops.DirectedDigits: stated for rdir, not for fpi->rounding, and for any b and S that stand for the magnitude; gdtoa's own set-up, shortest loop, quick path and inexact flags are not modelled.
- RemPio2.Reduce: the recomputation test and everything after it (lines 350-442) depend on the digits of 2/pi and on real floating point.
- Fmod.Remainder: the NaN payload and floating-point exceptions of (x*y)/(x*y).
- Iconv.Descriptor.Convert: UTF-8, WCHAR_T, Shift_JIS, Big5 and EUC-KR, as sources or targets; mbrtowc and the KS C table would come in as further parameters of the same loop, and the Shift_JIS decoder can index outside its table.
- Iconv.TurnProgress: for the same charsets only.
- Iconv.PrefixTurn: for the same charsets only.
- Iconv.EncodeChar: the UTF-8, WCHAR_T and Shift_JIS targets are not modelled.
- Iconv.EncodeChar: a codepage without an asterisk would make the source loop for ever on a substitution; the model writes the asterisk itself.
- iconv_open, find_charmap, the packing of two charsets into a pointer, and errno.
- Stdio.File.WriteFull: unbuffered mode (a sink that keeps accepting nothing would never end) and the growing string buffer of asprintf; int is unbounded, and cantwrite, locking and allocation are left out.
- The tables themselves (big5.h, gb18030.h, hkscs.h, jis0208.h, revjis.h, ksc.h, codepages.h, legacychars.h) and the constants of 2/pi.
- The elementary functions on doubles (polynomials and rounding-mode tricks), and the lookups and wrappers in fread.c, findfp.c, ctype.c and the like.
- Everything under include/ is declarations.
