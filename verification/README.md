# Verified kernels of `base/` and of git-import

This project models the arithmetic, representation and parsing kernels of the repository, and two of its
stateful structures, in Dafny 4.11, and proves what they promise.  Each of them is a fast form of something
simple; the simple form is written down next to it and the two are shown to agree for all inputs.
`dafny verify dfyconfig.toml` checks everything.

| files | what they model |
|---|---|
| `Wrappers`, `Arith`, `Bits`, `Decimal` | options and distinct sequences, powers of two and congruences, bitwise operations on numbers, decimal text |
| `PcgSequence`, `PcgEngine`, `PcgOutput`, `PcgDraws`, `PcgUint128` | the PCG generator: jump-ahead, distance, period, output permutation, bounded draws, shuffle, its 128-bit integer |
| `WideValue`, `WideArithmetic`, `WideShift`, `WideMultiply`, `WideDivide`, `WideText` | wide integers as sequences of 64-bit items, overflow tests, printing and parsing |
| `Itoa` | decimal printing by reciprocal fixed-point digit extraction |
| `FloatCompare` | exact comparison of a float with an integer |
| `JsonText`, `JsonSkip`, `JsonReader`, `JsonIterate`, `JsonLookup` | the lazy JSON reader |
| `ObjectPool` | the borrowed object pool as a protocol of client threads |
| `FileBlame`, `BlameInfo` | blame information looked up and updated by diffs |
| `MemoryCompare` | block-wise memory comparison |

Machine words are natural numbers with the wrap-around written out.  Exceptions are results.  Random words, the
conversion of `\u` escapes to UTF-8 and the schedule of the threads are parameters, so the theorems hold for all of
them.  A C++ function that loops is a method with the same loop, proved against a function; the theorems are
about that function.

The two multiplication forms, and the slow and the fast printers, are proved against the same specification
(`Value(lhs) * Value(rhs) % Size(n)` and `Text(x)`), so they agree with each other on every value.

## Where the code differs from what a caller expects

- `DecomposedFloat::compare` is documented to compare infinities correctly and to treat NaNs alike.  It does so
  exactly for integers below the number that the fields of the word would spell, which for an infinity is
  2^(2^(exponent_bits-1)); Float32 infinity is found equal to the 256-bit integer 2^128
  (`NonFiniteIff`, `InfinityIff`, `InfinityEqualsAnInteger`).
- `updateSnapshot` treats a hunk that only deletes lines as if it started one line earlier, unless it starts the file.
  The result is right exactly when the line before the hunk and the last deleted line have the same blame
  (`ReplayIff`, `DeletionIsOffByOne`).
- `JSON::skipNumber` does not step over a plus sign in an exponent, which RFC 8259, section 6, allows
  (`SkipIff`, `NumberPrinted`, `PlusStopsTheScan`), so `toString` cuts such a number off (`TextIff`).
- Iteration takes that plus sign for the end of the container, without an exception.  So `[1e+5,2]` has size 1 and
  a null reader at index 1, and `{"a":1e+5,"b":2}` has no member `b`.  `size()` counts all children exactly when
  each but the last can be stepped over and the last one too or is a bare number with a plus; an item or member is
  found exactly when all before it can be stepped over
  (`SizeIff`, `IndexIff`, `FoundIff`, `MissingIff`, `ArrayCutShort`, `MemberCutOff`).
- `JSON::operator[](n)` throws for an index out of bounds, but for n equal to the size it returns a reader with a
  null pointer (`IndexPrinted`).
- `shuffle` truncates its bound to the width of the generator.  It can divide by zero if and only if it has 2^k or more
  elements, and then it does so as soon as the generator yields enough words; with fewer elements it never does, and
  is complete after enough words (`DivisionByZeroIff`, `ShuffleEnds`).
- The loop of `engine::distance` ends for all states if and only if the generator is maximal; with multiplier 3 and
  increment 1 it never ends from state 0 to state 2 (`DistanceEndsIff`, `McgDistanceEndsIff`, `DistanceNeverEnds`).
- `allocateObjectForBorrowing` increments the counters before it calls the factory.  Each call that throws costs the
  pool one object for good: `borrowedObjectsSize` is the number of objects held if and only if none threw, and after
  max_size of them nothing can be borrowed any more (`BorrowedSizeIff`, `WornOut`).
- A nested array costs one level of the depth limit and a nested object two, and iterating over a container
  at the limit throws even if it is empty (`Readable`, `SizePrinted`).

## Model

| member | source | states |
|---|---|---|
| PcgSequence.IterateAffine | base/pcg-random/pcg_random.hpp:407-410 | n steps of the generator are one affine map: the state goes to Mult(n) * x + Plus(n) modulo 2^k |
| PcgSequence.PowerSteps | base/pcg-random/pcg_random.hpp:657-658 | for an odd multiplier, 2^i steps multiply by 1 modulo 2^(i+1) and add a multiple of 2^i |
| PcgSequence.PowerStepsFlip | base/pcg-random/pcg_random.hpp:675-681 | for a maximal generator, additive or multiplicative, 2^i steps flip exactly the next bit and leave the ones below |
| PcgSequence.Blocks | base/pcg-random/pcg_random.hpp:674-683 | m blocks of 2^i steps move the state by m * 2^i modulo 2^(i+1), from every state |
| PcgSequence.ReturnTime | base/pcg-random/pcg_random.hpp:664-685 | if n steps bring back the low j bits of a state, then 2^j divides n |
| PcgSequence.StepsInjective | base/pcg-random/pcg_random.hpp:664-685 | two step counts below 2^j after which the changing low j bits of the state agree are equal |
| PcgSequence.Reachable | base/pcg-random/pcg_random.hpp:664-685 | from every state some count below 2^j reaches the low bits of every other state |
| PcgSequence.MaximalPeriod | base/pcg-random/pcg_random.hpp:407-410 | a maximal generator reaches every state of its stream from every other by exactly one count below 2^bits, or 2^(bits-2) if multiplicative, and then starts over |
| PcgSequence.FullPeriodIff | base/pcg-random/pcg_random.hpp:407-410 | the generator visits all 2^k states from every state if and only if the multiplier is 1 modulo 4 and the increment is odd |
| PcgSequence.WholePeriod | base/pcg-random/pcg_random.hpp:456-459 | with an odd multiplier 2^k steps are the identity |
| PcgSequence.BackstepUndoes | base/pcg-random/pcg_random.hpp:456-459 | advancing by d and then by -d modulo 2^k, in either order, is the identity when the multiplier is odd |
| PcgSequence.BackstepIff | base/pcg-random/pcg_random.hpp:456-459 | backstep undoes advance for all states and distances if and only if the multiplier is odd |
| PcgEngine.AdvanceState | base/pcg-random/pcg_random.hpp:636-662 | the loop over the bits of delta computes exactly delta single steps |
| PcgEngine.Distance | base/pcg-random/pcg_random.hpp:664-685 | for a maximal generator the loop terminates, its inner assertion holds, and the result is the one count below the period that leads from s to t; under a mask of low bits it is the one count of the sequence reduced to them; under any mask it agrees on the masked bits; multiplicative generators included |
| PcgEngine.DistanceSound | base/pcg-random/pcg_random.hpp:664-685 | whatever the parameters and the mask, if the loop ends, the returned number of steps leads from s to a state that agrees with t under the mask |
| PcgEngine.DistanceEndsIff | base/pcg-random/pcg_random.hpp:664-685 | on an additive stream the loop ends for every two states if and only if the multiplier is 1 modulo 4 and the increment odd |
| PcgEngine.McgDistanceEndsIff | base/pcg-random/pcg_random.hpp:664-685 | on a multiplicative stream it ends for every two states if and only if the multiplier is 5 modulo 8 |
| PcgEngine.DistanceNeverEnds | base/pcg-random/pcg_random.hpp:674-683 | for 8 bits, multiplier 3 and increment 1 it never ends from state 0 to state 2 |
| PcgEngine.DefaultsAreMaximal | base/pcg-random/pcg_random.hpp:157-172 | every predefined multiplier and increment gives the full period 2^bits, and every multiplicative variant the period 2^(bits-2) through all states of its stream |
| PcgEngine.PredefinedParameters | base/pcg-random/pcg_random.hpp:157-172 | the full period for the multipliers and increments of the five widths, as numbers |
| PcgEngine.StreamIncrementOdd | base/pcg-random/pcg_random.hpp:328-331 | each stream number gives an odd increment from which the stream is read back |
| PcgEngine.Engine.constructor | base/pcg-random/pcg_random.hpp:488-493 | seeding makes the increment odd and bumps once from seed + increment |
| PcgEngine.Engine.SetStream | base/pcg-random/pcg_random.hpp:328-331 | the new increment; every stream has the full period when the multiplier is 1 modulo 4 |
| PcgEngine.Engine.BaseGenerate | base/pcg-random/pcg_random.hpp:412-422 | one step, returning the state before or after it |
| PcgEngine.Engine.Advance | base/pcg-random/pcg_random.hpp:451-454 | the engine moves exactly delta steps along its own sequence |
| PcgEngine.Engine.Backstep | base/pcg-random/pcg_random.hpp:456-459 | delta steps from the new state lead back to the old one |
| PcgEngine.Engine.StepsTo | base/pcg-random/pcg_random.hpp:687-703 | operator-: the one number of steps below 2^k from this engine to the other |
| PcgOutput.UnxorshiftSolves | base/pcg-random/pcg_extras.hpp:262-280 | for every width, bit count and shift >= 1 the recursion returns a solution of y ^ (y >> shift) = x |
| PcgOutput.UnxorshiftInverts | base/pcg-random/pcg_extras.hpp:262-280 | and that solution is the only one: unxorshift inverts xorshift |
| PcgOutput.SelectorSurvives | base/pcg-random/pcg_random.hpp:932-934 | a xorshift by at least opbits keeps the top selector bits, so the inverse reads the same shift |
| PcgOutput.OutputBits | base/pcg-random/pcg_random.hpp:919-939 | the output of each width bit by bit: the state xored with itself shifted right by 2 to 6 bits and its top bits, times the multiplier, xored with itself shifted right by two thirds of the width |
| PcgOutput.OutputRoundTrip | base/pcg-random/pcg_random.hpp:919-960 | unoutput(output(x)) = x for every state, given inverse multipliers |
| PcgOutput.UnoutputRoundTrip | base/pcg-random/pcg_random.hpp:919-960 | output(unoutput(y)) = y for every word: the output function is a bijection |
| PcgOutput.PredefinedOutputsInvert | base/pcg-random/pcg_random.hpp:901-960 | both round trips for the constants of all five widths |
| PcgOutput.MultipliersTruncate | base/pcg-random/pcg_random.hpp:886-914 | the multipliers of all widths are the 128-bit one, truncated |
| PcgDraws.BoundedRand | base/pcg-random/pcg_extras.hpp:451-463 | the draw is congruent to the first raw word that is at least 2^k mod bound, lies below the bound, and leaves the words behind that one; it runs dry only if all words are smaller; only a zero bound divides by zero |
| PcgDraws.DrawnWord | base/pcg-random/pcg_extras.hpp:456-461 | the same of the function that the loop computes, with the index of the word |
| PcgDraws.DrawsAreUniform | base/pcg-random/pcg_extras.hpp:456-461 | every result below the bound is drawn at once from exactly floor(2^k / bound) raw words |
| PcgDraws.ShuffledStep | base/pcg-random/pcg_extras.hpp:471-477 | the chosen element goes to the last place, the last one takes its place, and the rest is shuffled on |
| PcgDraws.ShuffledPermutes | base/pcg-random/pcg_extras.hpp:465-478 | the result of a shuffle is a permutation |
| PcgDraws.ShuffledInjective | base/pcg-random/pcg_extras.hpp:465-478 | different choices arrange distinct elements differently |
| PcgDraws.ShuffledSurjective | base/pcg-random/pcg_extras.hpp:465-478 | every permutation comes from some choices |
| PcgDraws.Shuffle | base/pcg-random/pcg_extras.hpp:465-478 | the loop that swaps in place leaves exactly the arrangement given by the drawn choices, and a permutation even if the draws run out or a bound is zero; it says which of the three happened |
| PcgDraws.ShuffleIsUniform | base/pcg-random/pcg_extras.hpp:451-478 | every arrangement of n < 2^k distinct elements comes from exactly floor(2^k / n) * ... * floor(2^k / 2) sequences of n - 1 raw words |
| PcgDraws.LongNeverPlaced | base/pcg-random/pcg_extras.hpp:465-478 | a shuffle of 2^k or more elements is never complete, whatever is drawn |
| PcgDraws.ShortNeverDivides | base/pcg-random/pcg_extras.hpp:465-478 | a shuffle of fewer elements never divides by zero, whatever is drawn |
| PcgDraws.EnoughWords | base/pcg-random/pcg_extras.hpp:456-461 | one raw word in the upper half of the range per draw is enough for the generator not to run dry |
| PcgDraws.ShuffleEnds | base/pcg-random/pcg_extras.hpp:465-478 | given that many words, fewer than 2^k elements are all placed, and 2^k or more end in a division by zero |
| PcgDraws.DivisionByZeroIff | base/pcg-random/pcg_extras.hpp:465-478 | for n elements, some words of k bits lead to a division by zero if and only if n > 1 and n >= 2^k, and some complete the shuffle if and only if n <= 1 or n < 2^k |
| PcgUint128.AddWithCarry | base/pcg-random/pcg_uint128.hpp:186-193 | result and carry out are the sum of both words and the carry in |
| PcgUint128.SubWithCarry | base/pcg-random/pcg_uint128.hpp:195-202 | result and borrow out are the difference |
| PcgUint128.Plus | base/pcg-random/pcg_uint128.hpp:564-581 | sum modulo 2^128 |
| PcgUint128.Minus | base/pcg-random/pcg_uint128.hpp:583-600 | difference modulo 2^128 |
| PcgUint128.Less | base/pcg-random/pcg_uint128.hpp:649-654 | comparison of halves is comparison of values |
| PcgUint128.Times | base/pcg-random/pcg_uint128.hpp:520-561 | the four-word product with its carry chain is the product modulo 2^128 |
| PcgUint128.ShiftLeft | base/pcg-random/pcg_uint128.hpp:676-709 | multiplication by 2^shift modulo 2^128, for every value of the shift type |
| PcgUint128.ShiftRight | base/pcg-random/pcg_uint128.hpp:711-744 | division by 2^shift, for shifts below 160 |
| PcgUint128.Flog2 | base/pcg-random/pcg_uint128.hpp:429-443 | the position of the highest one bit |
| PcgUint128.DivMod | base/pcg-random/pcg_uint128.hpp:460-503 | terminates, and dividend = quotient * divisor + remainder with remainder < divisor for every divisor but zero |
| WideArithmetic.Plus | base/base/wide_integer_impl.h:605-636 | the two-pass carry loop adds modulo 2^Bits, for any number of items |
| WideArithmetic.Minus | base/base/wide_integer_impl.h:572-603 | the two-pass borrow loop subtracts modulo 2^Bits |
| WideArithmetic.UnaryMinus | base/base/wide_integer_impl.h:749-753 | complement and increment negate modulo 2^Bits |
| WideArithmetic.OperatorPlus | base/base/wide_integer_impl.h:756-784 | signed or unsigned sum modulo 2^Bits, exact when it is in range |
| WideArithmetic.OperatorMinus | base/base/wide_integer_impl.h:787-815 | signed or unsigned difference modulo 2^Bits, exact when it is in range |
| WideArithmetic.OperatorLess | base/base/wide_integer_impl.h:885-908 | item-wise comparison decides the order of the numbers |
| WideArithmetic.OperatorGreater | base/base/wide_integer_impl.h:859-882 | item-wise comparison decides the order of the numbers |
| WideArithmetic.IsZero | base/base/wide_integer_impl.h:970-982 | true exactly for the value zero |
| WideShift.ShiftLeft | base/base/wide_integer_impl.h:482-507 | multiplication by 2^n modulo 2^Bits for 0 <= n < Bits |
| WideShift.ShiftRight | base/base/wide_integer_impl.h:509-547 | floor division by 2^n of the signed or unsigned number |
| WideMultiply.MultiplyByShifts | base/base/wide_integer_impl.h:696-737 | the loop that consumes one, two or three bits with the 3x and 7x multiples gives the product modulo 2^Bits |
| WideMultiply.MultiplyByHalves | base/base/wide_integer_impl.h:641-684 | the 256-bit form with two carry tests gives the same product, also for a one-item right side |
| WideMultiply.Multiply | base/base/wide_integer_impl.h:638-737 | whichever form is chosen, the product modulo 2^Bits |
| WideMultiply.MakePositive | base/base/wide_integer_impl.h:302-305 | the absolute value, also of the most negative number |
| WideMultiply.OperatorStar | base/base/wide_integer_impl.h:818-856 | signed or unsigned product modulo 2^Bits, exact when it is in range |
| WideDivide.OperatorPipe | base/base/wide_integer_impl.h:934-949 | item-wise or is or of the values |
| WideDivide.TopBitClear | base/base/wide_integer_impl.h:1015-1015 | the mask test tells whether doubling still fits |
| WideDivide.DoubleDivisor | base/base/wide_integer_impl.h:1012-1019 | the doubling loop loses no bit and passes half of the numerator |
| WideDivide.SubtractShifted | base/base/wide_integer_impl.h:1021-1031 | the shift-subtract loop leaves quotient and remainder |
| WideDivide.Divide | base/base/wide_integer_impl.h:984-1034 | fails exactly for a zero denominator; else numerator = quotient * denominator + remainder with remainder < denominator |
| WideDivide.TruncatingDivision | base/base/wide_integer_impl.h:1037-1100 | quotient and remainder of truncating division: they recompose, the remainder is small and has the sign of the dividend |
| WideDivide.OperatorSlash | base/base/wide_integer_impl.h:1037-1067 | signed or unsigned truncating quotient; wraps only for the minimum divided by -1 |
| WideDivide.OperatorPercent | base/base/wide_integer_impl.h:1070-1100 | truncating remainder, with the sign of the dividend |
| WideText.Limits | base/base/wide_integer_impl.h:164-188 | numeric_limits min and max are the ends of the range |
| WideText.AddOverflow | base/base/arithmeticOverflow.h:59-87 | true exactly when the sum is out of range; the wrapped sum is always stored |
| WideText.SubOverflow | base/base/arithmeticOverflow.h:113-141 | true exactly when the difference is out of range; the wrapped difference is always stored |
| WideText.ToString | base/base/wide_integer_to_string.cpp:11-34 | the divide-by-ten loop prints the canonical decimal text of every value, the minimum included |
| WideText.FromStr | base/base/wide_integer_impl.h:1122-1175 | parses decimal and hexadecimal text, rejects every other character, and gives the number modulo 2^256 |
| WideText.ParseText | base/base/wide_integer_impl.h:1122-1175 | the parser accepts every canonical decimal text and returns its number |
| WideText.ParseHex | base/base/wide_integer_impl.h:1130-1157 | the parser reads back every hexadecimal text, with 0x or 0X, lower or upper case, and a minus sign if signed |
| WideText.RejectedIff | base/base/wide_integer_impl.h:1155-1164 | digits are rejected exactly if one is not among 0-9, or a-f and A-F in hexadecimal text |
| WideText.PrintAndRead | base/base/wide_integer_to_string.cpp:11-34 | from_str(to_string(n)) = n for every 256-bit value |
| Itoa.Extract | base/base/itoa.cpp:135-143 | a fixed-point fraction whose error is below one unit yields the right pair of digits and keeps the error bound for the rest |
| Itoa.Write4 | base/base/itoa.cpp:133-144 | three or four digits from one 24-bit reciprocal |
| Itoa.Write6 | base/base/itoa.cpp:145-155 | five or six digits |
| Itoa.Write8 | base/base/itoa.cpp:159-171 | seven or eight digits |
| Itoa.Write10 | base/base/itoa.cpp:172-183 | nine or ten digits |
| Itoa.WriteAll8 | base/base/itoa.cpp:279-287 | exactly eight digits with leading zeros |
| Itoa.WriteHead | base/base/itoa.cpp:188-277 | the digits in front of the last eight of a number above 32 bits |
| Itoa.ToTextFromInteger | base/base/itoa.cpp:111-288 | every value of every 8- to 64-bit type: the buffer holds exactly the canonical text, and nothing outside it changes |
| Itoa.BuiltInTypes | base/base/itoa.cpp:444-478 | the ranges of the eight types that it covers |
| Itoa.WriteUInt128 | base/base/itoa.cpp:295-338 | the block-wise printer writes the canonical digits and never indexes outside two_values |
| Itoa.WriteUInt256 | base/base/itoa.cpp:340-403 | the same for 256 bits |
| Itoa.WriteSInt | base/base/itoa.cpp:411-441 | every signed 128- or 256-bit value, the minimum included: the same text as ToString |
| FloatCompare.CompareDenoted | base/base/DecomposedFloat.h:129-212 | for every sign, exponent and significand of every format and every integer of every width and signedness, the result on the encoded word is the sign of the exact difference of the denoted real number and the integer |
| FloatCompare.CompareSourceTypes | base/base/DecomposedFloat.h:129-212 | in particular for Float32 and Float64 against all integers of 8 to 256 bits |
| FloatCompare.FieldsOf | base/base/DecomposedFloat.h:70-104 | isNegative, exponent and mantissa read back the fields of section 3.4 of IEEE 754-2019 |
| FloatCompare.EveryWord | base/base/DecomposedFloat.h:70-104 | and every word is the sum of these fields at their weights |
| FloatCompare.CompareExact | base/base/DecomposedFloat.h:129-212 | the same in terms of the word |
| FloatCompare.SameSignExact | base/base/DecomposedFloat.h:171-211 | the octave tests and the comparison of integer and fractional parts decide exactly, with no bit lost in a shift |
| FloatCompare.LowestExact | base/base/DecomposedFloat.h:149-165 | the separate branch for the most negative integer is exact |
| FloatCompare.NonFiniteIff | base/base/DecomposedFloat.h:125-127 | an infinity or NaN is ordered on its own side of an integer if and only if the integer lies before the number its fields spell |
| FloatCompare.NonFiniteSpells | base/base/DecomposedFloat.h:167-169 | what an infinity or NaN spells: 2^(2^(exponent_bits-1)) or more in magnitude, exactly that for an infinity |
| FloatCompare.InfinityIff | base/base/DecomposedFloat.h:167-169 | an infinity is ordered on its own side of an integer if and only if the magnitude of the integer is below 2^(2^(exponent_bits-1)) |
| FloatCompare.NonFiniteInNarrowTypes | base/base/DecomposedFloat.h:125-127 | so for integer types of at most 2^(exponent_bits-1) bits infinities and NaNs lie beyond every integer |
| FloatCompare.InfinityEqualsAnInteger | base/base/DecomposedFloat.h:126-126 | the documented promise fails for wider types: Float32 infinity equals 2^128 |
| JsonSkip.StringPrinted | base/base/JSON.cpp:223-258 | on every valid string the memchr shortcut and the scan agree and stop behind the closing quote |
| JsonSkip.NumberPrinted | base/base/JSON.cpp:261-283 | a number is stepped over whole, except that a plus sign in the exponent stops the scan |
| JsonSkip.ElementPrinted | base/base/JSON.cpp:382-405 | the exact outcome of skipElement on every printed value at every level: its end, the plus sign of a bare number, or an exception |
| JsonSkip.SkipIff | base/base/JSON.cpp:382-405 | the reader gets past exactly the value if and only if it has no plus exponent and fits the depth limit |
| JsonSkip.PlusStopsTheScan | base/base/JSON.cpp:261-283 | the scan of 1e+5 ends behind the e |
| JsonSkip.NestingLimit | base/base/JSON.cpp:167-174 | n arrays inside each other are stepped over if and only if n <= 101 |
| JsonSkip.ItemsPrinted | base/base/JSON.cpp:322-349 | the loop of skipArray over printed items |
| JsonSkip.PairPrinted | base/base/JSON.cpp:308-319 | skipNameValuePair over a printed member |
| JsonSkip.MembersPrinted | base/base/JSON.cpp:352-379 | the loop of skipObject over printed members |
| JsonReader.TypePrinted | base/base/JSON.cpp:177-213 | getType of every printed value is the type of its constructor; a string is not taken for the name of a pair |
| JsonReader.MemberTypePrinted | base/base/JSON.cpp:177-213 | getType of every printed member is a name-value pair, whatever its name and value |
| JsonReader.BoolPrinted | base/base/JSON.cpp:541-548 | getBool of every printed value is the boolean that it is, and an exception for everything else |
| JsonReader.Literals | base/base/JSON.cpp:286-305 | null, true and false are stepped over whole |
| JsonReader.Reader.GetBool | base/base/JSON.cpp:541-548 | computes BoolAt |
| JsonReader.Reader.SkipString | base/base/JSON.cpp:223-258 | shortcut and scanning loop compute StringEnd |
| JsonReader.Reader.SkipNumber | base/base/JSON.cpp:261-283 | the digit loops compute NumberEnd |
| JsonReader.Reader.SkipNameValuePair | base/base/JSON.cpp:308-319 | computes PairEnd, level check included |
| JsonReader.Reader.SkipArray | base/base/JSON.cpp:322-349 | the loop computes ArrayEnd and terminates on every text |
| JsonReader.Reader.SkipObject | base/base/JSON.cpp:352-379 | the loop computes ObjectEnd and terminates on every text |
| JsonReader.Reader.SkipElement | base/base/JSON.cpp:382-405 | the mutual recursion terminates on every text and computes ElementEnd |
| JsonIterate.ChildNext | base/base/JSON.cpp:742-757 | the exact outcome of one increment from every printed child: the next child, or the end after the last one, if it can be stepped over; the end at a bare number with a plus; else an exception |
| JsonIterate.BeginPrinted | base/base/JSON.cpp:722-740 | begin() is the first child, or the end of an empty container, whatever the children are; at the depth limit it throws |
| JsonIterate.VisitsChildren | base/base/JSON.cpp:722-757 | an iteration visits exactly the children up to the first that cannot be stepped over, in order, and throws exactly if that one does |
| JsonIterate.SizePrinted | base/base/JSON.cpp:407-415 | the exact outcome of size() on every printed container: the number of children reached, or an exception |
| JsonIterate.SizeIff | base/base/JSON.cpp:407-415 | size() is the number of children if and only if the level is below the limit, every child but the last can be stepped over, and the last one can or is a bare number with a plus |
| JsonIterate.IndexPrinted | base/base/JSON.cpp:424-447 | the exact outcome of operator[](n) on every printed array: the n-th child if it is reached, the null reader right after the last one reached, else an exception |
| JsonIterate.IndexIff | base/base/JSON.cpp:424-447 | operator[](n) is the n-th item if and only if all items before it can be stepped over |
| JsonIterate.ArrayCutShort | base/base/JSON.cpp:742-757 | size() of [1e+5,2] is 1 and its index 1 is the null reader |
| JsonIterate.RawAgrees | base/base/JSON.cpp:460-471 | for every text, a name without escapes reads the same raw and decoded |
| JsonIterate.DecodePrinted | base/base/JSON.cpp:550-640 | getString of a printed string is the string it stands for |
| JsonIterate.GetStringEscaped | base/base/JSON.cpp:550-640 | getString reads every string back from its text, with quote, backslash and the five control characters escaped as section 7 of RFC 8259 says |
| JsonIterate.OtherEscape | base/base/JSON.cpp:627-629 | a backslash before any other character but u stands for that character |
| JsonIterate.EscapesPrinted | base/base/JSON.cpp:480-491 | hasEscapes tells whether a printed string has an escape |
| JsonIterate.FirstMatchIsFirst | base/base/JSON.cpp:450-477 | the searched member is the first of its name, and there is none exactly when all names decode to something else |
| JsonIterate.FieldPrinted | base/base/JSON.cpp:450-477 | the exact outcome of searchField on every printed object: the first member of the name among those reached, null, or an exception |
| JsonIterate.FoundIff | base/base/JSON.cpp:450-477 | a member is found if and only if all members before it can be stepped over, and is taken for missing if and only if the search ends at a bare number with a plus before it |
| JsonIterate.MissingIff | base/base/JSON.cpp:450-477 | a name that is not there gives null if and only if no member makes the search throw |
| JsonIterate.MemberCutOff | base/base/JSON.cpp:742-757 | searchField of b in {"a":1e+5,"b":2} is null |
| JsonIterate.Cursor.Increment | base/base/JSON.cpp:742-757 | operator++ moves the pointer as NextOf says, or throws and leaves it |
| JsonIterate.Size | base/base/JSON.cpp:407-415 | the counting loop computes SizeOf |
| JsonIterate.Index | base/base/JSON.cpp:424-447 | the stepping loop computes IndexOf |
| JsonIterate.HasEscapes | base/base/JSON.cpp:480-491 | the scan computes EscapesFrom |
| JsonIterate.GetRawString | base/base/JSON.cpp:647-658 | the bytes up to the next quote |
| JsonIterate.ReadString | base/base/JSON.cpp:550-640 | appending runs and escapes to a buffer decodes the string, character by character |
| JsonIterate.SearchField | base/base/JSON.cpp:450-477 | the loop with the raw-name shortcut computes FieldOf, which always compares decoded names |
| JsonLookup.GetValue | base/base/JSON.cpp:665-674 | the reader behind the name and the colon, as ValueOf says |
| JsonLookup.ValuePrinted | base/base/JSON.cpp:665-674 | getValue of a printed member is a reader at its printed value one level down, or throws at the depth limit |
| JsonLookup.Named | base/base/JSON.cpp:510-517 | searchField and getValue compute NamedOf |
| JsonLookup.NamedPrinted | base/base/JSON.cpp:510-517 | operator[](name) on every printed value: a reader at the value of the first member of that name two levels down, exactly if there is one, all members before it can be stepped over and the limit allows it; else an exception |
| JsonLookup.NthPrinted | base/base/JSON.cpp:424-447 | operator[](n) on every printed value, also one that is no array |
| JsonLookup.FollowPrinted | base/base/JSON.cpp:424-517 | a path of names and indices through any printed value leads exactly to the place that it has in the value, and fails if some step is missing or closed |
| JsonLookup.PlaceIsSubvalue | base/base/JSON.cpp:424-517 | in a value without plus exponents and within the depth limit, that place is the subvalue the path names |
| JsonLookup.ToString | base/base/JSON.cpp:710-719 | getType and skipElement or getString compute TextOf |
| JsonLookup.StringText | base/base/JSON.cpp:710-719 | toString of a printed string is the string it stands for |
| JsonLookup.TextIff | base/base/JSON.cpp:710-719 | toString of any other printed value is its text if and only if it has no plus exponent and fits the depth limit |
| JsonLookup.PathText | base/base/JSON.cpp:424-719 | reading back: a path through the text of such a value, followed by toString, gives the text of the subvalue it names, or fails exactly if there is none |
| ObjectPool.BorrowedObjectPool.Enter | base/base/BorrowedObjectPool.h:36-53 | the critical section up to the wait is the function that the protocol steps by: take the last idle object, or allocate, or wait; a factory that throws leaves the counters incremented |
| ObjectPool.BorrowedObjectPool.Retry | base/base/BorrowedObjectPool.h:55-56 | the critical section after a wake-up, likewise |
| ObjectPool.BorrowedObjectPool.BorrowFromObjects | base/base/BorrowedObjectPool.h:140-149 | takes the object returned last |
| ObjectPool.BorrowedObjectPool.ReturnObject | base/base/BorrowedObjectPool.h:89-96 | the critical section of a return |
| ObjectPool.StepPartition | base/base/BorrowedObjectPool.h:36-99 | every step keeps every allocated object in exactly one place: idle, with one client, or lost by a factory that threw |
| ObjectPool.StepBounded | base/base/BorrowedObjectPool.h:49-55 | every step keeps the bound; threads wait only while the pool is full |
| ObjectPool.StepNoLostWakeUp | base/base/BorrowedObjectPool.h:88-99 | every step keeps the wake-up balance, spurious wake-ups and timeouts included |
| ObjectPool.RunSafety | base/base/BorrowedObjectPool.h:36-99 | in every state of every run: allocated = borrowed + idle, borrowed = held + lost, allocated <= max_size when bounded, no object in two hands or both held and idle, and while a thread sleeps idle objects do not exceed wake-ups in flight |
| ObjectPool.PeakDemand | base/base/BorrowedObjectPool.h:40-53 | in every run the allocated size is the largest borrowed size so far: nothing is allocated while an object is idle |
| ObjectPool.LastInFirstOut | base/base/BorrowedObjectPool.h:89-149 | the object returned last is borrowed first, which undoes the return |
| ObjectPool.BorrowOutcome | base/base/BorrowedObjectPool.h:36-57 | a borrower sleeps exactly if nothing is idle and a bounded pool is full; else it holds the object returned last or a new one |
| ObjectPool.WaitEnds | base/base/BorrowedObjectPool.h:55-84 | a wait ends with the idle object returned last; only a timed one ends with nothing, and then nothing is idle |
| ObjectPool.FactoryMayThrow | base/base/BorrowedObjectPool.h:131-138 | the factory can throw exactly when it is called |
| ObjectPool.CanMove | base/base/BorrowedObjectPool.h:36-99 | in every state of every run no thread is stuck |
| ObjectPool.ThrowsCostCapacity | base/base/BorrowedObjectPool.h:131-138 | in every state of every run, objects held, objects idle and factory calls that threw add up to the allocated size |
| ObjectPool.BorrowedSizeIff | base/base/BorrowedObjectPool.h:121-127 | borrowedObjectsSize is the number of objects that clients hold if and only if no factory call threw |
| ObjectPool.WornOut | base/base/BorrowedObjectPool.h:131-138 | once max_size calls have thrown, no client holds anything, nothing is idle and nothing can be allocated, in every later state |
| ObjectPool.HolderCanReturn | base/base/BorrowedObjectPool.h:88-99 | a client can always return what it holds |
| ObjectPool.AllAsleep | base/base/BorrowedObjectPool.h:55-57 | if every thread sleeps, the pool is full and nothing is idle |
| FileBlame.Blame.constructor | programs/git-import/git-import.cpp:606-609 | an empty list with the cursor at its begin |
| FileBlame.Blame.Assign | programs/git-import/git-import.cpp:612-620 | copies the lines and restarts the cursor; self-assignment changes nothing |
| FileBlame.Blame.Walk | programs/git-import/git-import.cpp:628-640 | the cursor goes to line num or to the end, from wherever it was |
| FileBlame.Blame.Find | programs/git-import/git-import.cpp:642-651 | the commit of line num, or none past the end |
| FileBlame.Blame.AddLine | programs/git-import/git-import.cpp:653-665 | line num is the new one, the lines before it are as before or empty, the later ones move up by one |
| FileBlame.Blame.RemoveLine | programs/git-import/git-import.cpp:667-675 | line num is gone if there was one, and the later ones move down by one |
| FileBlame.ReadHunk | programs/git-import/git-import.cpp:923-1035 | the numbers that the lines of one hunk get from its header |
| FileBlame.ReadEdit | programs/git-import/git-import.cpp:923-1035 | for the header that a diff prints for an edit, these are Deletions and Additions |
| FileBlame.UpdateLines | programs/git-import/git-import.cpp:742-752 | the update loop folds insertions and removals over the plain sequence, whatever the cursor does |
| FileBlame.HunkUpdate | programs/git-import/git-import.cpp:742-752 | the numbered changes of one hunk replace its deleted lines by lines of the commit at the new start |
| FileBlame.LoopOutcome | programs/git-import/git-import.cpp:742-752 | what the loop makes of a whole diff: pure deletions inside the file keep the blame of the last deleted line for the line before |
| FileBlame.ReplayIff | programs/git-import/git-import.cpp:936-952 | the result is the old blame without the deleted lines and with added lines blamed on the commit if and only if every hunk adds a line, deletes nothing, starts the file, or follows a line with the blame of its last deleted line |
| FileBlame.DeletionIsOffByOne | programs/git-import/git-import.cpp:936-939 | a hunk that deletes line 2 of two lines removes the blame of line 1 |
| BlameInfo.LookUp | programs/git-import/git-import.cpp:707-737 | one change: the earlier commit of a deleted line, or for an added line that of the deleted line it replaces, if it was seen |
| BlameInfo.ObtainBlame | programs/git-import/git-import.cpp:705-738 | the loop with its map of deleted lines computes Infos and leaves the lines alone |
| BlameInfo.ScriptFinds | programs/git-import/git-import.cpp:686-738 | over a whole diff every deleted line is traced to its commit and every added line to the commit of the deleted line in its place, if that is not later than the replayed commit |
| MemoryCompare.FindDifference | base/base/memcmpSmall.h:295-311 | the 16-byte block loop finds the first difference below the size, whatever lies past the end |
| MemoryCompare.Compare | base/base/memcmpSmall.h:287-314 | lexicographic order of the two regions |
| MemoryCompare.LexIff | base/base/memcmpSmall.h:287-314 | that order is by the smaller byte at the first difference, a proper prefix comes first, and only equal strings are equal |
| MemoryCompare.ComparePadded | base/base/memcmpSmall.h:322-390 | order of the zero-padded regions |
| MemoryCompare.PaddedIff | base/base/memcmpSmall.h:317-321 | and this one by the first difference of the zero-filled strings |
| MemoryCompare.Equal | base/base/memcmpSmall.h:426-450 | byte equality |
| MemoryCompare.CompareBytes | base/base/memcmpSmall.h:742-749 | the fallback without vector instructions has the sign of the lexicographic order, for every memcmp that is negative, zero or positive as the C standard says |
| MemoryCompare.LexIsMemcmp | base/base/memcmpSmall.h:745-745 | there is such a memcmp |
| MemoryCompare.ComparePaddedBytes | base/base/memcmpSmall.h:751-789 | the padded fallback has the sign of the order of the zero-padded regions |
| MemoryCompare.PaddedIsTotalPreorder | base/base/memcmpSmall.h:317-321 | the padded order is antisymmetric in sign, total and transitive |
| MemoryCompare.PaddedEqual | base/base/memcmpSmall.h:317-321 | two strings are equal in it exactly when they differ by trailing zero bytes |
| MemoryCompare.EqualWide | base/base/StringRef.h:138-203 | byte equality, with every overlapping load inside the buffers |

## Left out

- The extended and inside-out PCG generators, whose step and jump forms test different things.
- Output functions of PCG other than RXS-M-XS, streams tied to object addresses, text input and output of engines.
- Wide integers: the compiler's `_BitInt` paths, operands of mixed types or widths, shifts by Bits or more, conversions from and to floating point, 128-bit `from_str`, and `mulOverflow`, which is documented as not implemented.
- WideDivide.DivideNative: the 128-bit case uses the compiler's own 128-bit division, so the model divides numbers there.
- PcgEngine.Distance: stated for maximal generators; `PcgEngine.DistanceEndsIff` and `PcgEngine.McgDistanceEndsIff` show that for all others the loop goes on forever from some state to some other, and `PcgEngine.DistanceSound` says what it returns if it does.
- PcgDraws.BoundedRand: the raw words are a finite sequence, so the model can run dry where the source keeps drawing.
- PcgUint128.DivMod: a zero divisor is excluded, as the source calls it undefined.
- PcgUint128.ShiftRight: shifts of 160 bits or more are not modelled, as the source would start above its four words.
- FloatCompare.CompareExact: infinities and NaNs are compared as the numbers their fields would spell, which is what the code does; `FloatCompare.NonFiniteIff` says when that keeps the documented order.
- JSON: whitespace, which the reader excludes by convention; `readFloatText`, `getInt` and the other number conversions; `hasSpecialChars`.
- JsonLookup.ToString: the text of a literal that is cut off is a failure; the source steps beyond the end of the buffer.
- JsonLookup.FollowPrinted: the null reader that operator[](n) gives for n equal to the size counts as a failure, since nothing can be read from it.
- JsonIterate.HasEscapes: a name without any closing quote is a failure; the source reads the byte at the end of the buffer.
- JSON texts that are not printed values: the methods are proved to compute the same functions and to terminate on them, but nothing is promised about the result.
- ObjectPool.RunSafety: fairness of the scheduler and of `notify_one` is not modelled, so no thread is promised to get an object.
- FileBlame: parsing of `git show` other than the numbering of hunks, renames and copies in the snapshot map, and TSV output.  `FileBlame.Blame.Walk` needs num >= 1; line zero would move the list iterator before its begin.
- FileBlame.ReplayIff: neighbouring hunks have an unchanged line between them, as diffs without context print them.
- BlameInfo.ScriptFinds: stated for the same diffs.
- SIMD instructions below the level of the mask of differing bytes, the AVX-512 and NEON variants of the same loops, signed characters and big-endian layouts.
- MemoryCompare.EqualWide: a load is compared as the bytes it covers.
- Command-line programs, client, keeper, disks, terminal input, OS probes, coverage and libc shims.
